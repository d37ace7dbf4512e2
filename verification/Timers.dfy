/** The wraparound timers of timer.cpp, on a 32-bit clock. */
module Timers {
  import opened Bytes

  const WRAP: nat := 0x1_0000_0000

  /** Sum and difference of clock_time_t. */
  function Add(a: u32, b: u32): u32 { if a + b < WRAP then a + b else a + b - WRAP }
  function Sub(a: u32, b: u32): u32 { if a >= b then a - b else a - b + WRAP }

  /** The value clock_time() returns at a true time. */
  function Clock(t: nat): u32 { t % WRAP }

  class Timer {
    var start: u32
    var interval: u32

    constructor ()
    {
      start, interval := 0, 0;
    }

    /** timer_set. */
    method Set(now: u32, interval: u32)
      modifies this
      ensures this.start == now && this.interval == interval
    {
      this.interval := interval;
      start := now;
    }

    /** timer_reset. */
    method Reset()
      modifies this`start
      ensures start == Add(old(start), interval)
    {
      start := Add(start, interval);
    }

    /** timer_restart. */
    method Restart(now: u32)
      modifies this`start
      ensures start == now
    {
      start := now;
    }

    /** timer_expired. */
    method TimerExpired(now: u32) returns (expired: bool)
      ensures expired == Expired(now, start, interval)
    {
      var diff := Add(Sub(now, start), 1);
      expired := interval < diff;
    }

    /** timer_remaining. */
    method TimerRemaining(now: u32) returns (left: u32)
      ensures left == Remaining(now, start, interval)
    {
      left := Sub(Add(start, interval), now);
    }
  }

  predicate Expired(now: u32, start: u32, interval: u32) {
    interval < Add(Sub(now, start), 1)
  }

  function Remaining(now: u32, start: u32, interval: u32): u32 {
    Sub(Add(start, interval), now)
  }

  /** The difference of two clock values is the true time between them, modulo the range of the clock. */
  lemma SubIsElapsed(s: nat, t: nat)
    requires s <= t
    ensures Sub(Clock(t), Clock(s)) == (t - s) % WRAP
  {
  }

  /**
    A timer set at true time s and read at true time t has expired exactly when the elapsed time, on the 32-bit
    clock, has reached the interval and is not the largest value of the clock.
   */
  lemma ExpiredMeans(s: nat, t: nat, interval: u32)
    requires s <= t
    ensures Expired(Clock(t), Clock(s), interval) <==> interval <= (t - s) % WRAP && (t - s) % WRAP != WRAP - 1
  {
    SubIsElapsed(s, t);
  }

  /** Read before the clock has gone all the way round, it has expired exactly when its time is over. */
  lemma ExpiredInTime(s: nat, t: nat, interval: u32)
    requires s <= t < s + WRAP - 1
    ensures Expired(Clock(t), Clock(s), interval) <==> t >= s + interval
  {
  }

  /** What timer_remaining returns is the time left, unless the timer has run out, when it is close to 2^32. */
  lemma RemainingMeans(s: nat, t: nat, interval: u32)
    requires s <= t < s + WRAP
    ensures Remaining(Clock(t), Clock(s), interval)
         == if t <= s + interval then s + interval - t else WRAP - (t - s - interval)
  {
  }

  // ---- Periodic use ----

  /** The start of a timer that is read at t and reset if it has expired. */
  function StartAfter(start: nat, interval: u32, t: nat): nat {
    if Expired(Clock(t), Clock(start), interval) then start + interval else start
  }

  /** The true start of a timer that is read at the times ts and reset whenever it has expired. */
  function PolledStart(s: nat, interval: u32, ts: seq<nat>): nat {
    if ts == [] then s else StartAfter(PolledStart(s, interval, ts[..|ts| - 1]), interval, ts[|ts| - 1])
  }

  function Previous(s: nat, ts: seq<nat>, i: nat): nat
    requires i < |ts|
  {
    if i == 0 then s else ts[i - 1]
  }

  /** The readings follow each other, the first after s, by no more than the interval. */
  predicate Prompt(s: nat, interval: u32, ts: seq<nat>) {
    forall i :: 0 <= i < |ts| ==> Previous(s, ts, i) <= ts[i] <= Previous(s, ts, i) + interval
  }

  function Multiple(k: nat, n: nat): nat { k * n }

  /** On whole intervals since s. */
  ghost predicate OnGrid(s: nat, interval: u32, start: nat) {
    exists k: nat :: start == s + Multiple(k, interval)
  }

  lemma GridStarts(s: nat, interval: u32)
    ensures OnGrid(s, interval, s)
  {
    assert Multiple(0, interval) == 0;
  }

  lemma GridGoesOn(s: nat, interval: u32, start: nat)
    requires OnGrid(s, interval, start)
    ensures OnGrid(s, interval, start + interval)
  {
    var k: nat :| start == s + Multiple(k, interval);
    assert Multiple(k + 1, interval) == Multiple(k, interval) + interval;
  }

  /** timer_reset does not drift: however late the readings come, the timer starts at whole intervals since it was set. */
  lemma {:induction false} ResetStaysOnGrid(s: nat, interval: u32, ts: seq<nat>)
    ensures OnGrid(s, interval, PolledStart(s, interval, ts))
    decreases |ts|
  {
    if ts == [] {
      GridStarts(s, interval);
    } else {
      var front := ts[..|ts| - 1];
      ResetStaysOnGrid(s, interval, front);
      GridGoesOn(s, interval, PolledStart(s, interval, front));
    }
  }

  lemma ReadingKeepsLag(interval: u32, start: nat, last: nat, t: nat)
    requires 2 * interval < WRAP - 1
    requires start <= last < start + interval && last <= t <= last + interval
    ensures var next := StartAfter(start, interval, t); next <= t < next + interval
  {
    ExpiredInTime(start, t, interval);
  }

  lemma PromptPrefix(s: nat, interval: u32, ts: seq<nat>)
    requires ts != [] && Prompt(s, interval, ts)
    ensures Prompt(s, interval, ts[..|ts| - 1])
    ensures var n := |ts| - 1; Previous(s, ts, n) <= ts[n] <= Previous(s, ts, n) + interval
  {
    var front := ts[..|ts| - 1];
    forall i | 0 <= i < |front|
      ensures Previous(s, front, i) <= front[i] <= Previous(s, front, i) + interval
    {
      assert Previous(s, front, i) == Previous(s, ts, i);
    }
  }

  /** With readings no further apart than the interval it lags behind by less than one interval. */
  lemma {:induction false} ResetDoesNotLag(s: nat, interval: u32, ts: seq<nat>)
    requires 0 < interval && 2 * interval < WRAP - 1 && ts != [] && Prompt(s, interval, ts)
    ensures var start := PolledStart(s, interval, ts); start <= ts[|ts| - 1] < start + interval
    decreases |ts|
  {
    var front := ts[..|ts| - 1];
    PromptPrefix(s, interval, ts);
    if front != [] { ResetDoesNotLag(s, interval, front); }
    ReadingKeepsLag(interval, PolledStart(s, interval, front), Previous(s, ts, |ts| - 1), ts[|ts| - 1]);
  }
}
