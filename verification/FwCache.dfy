/** The forwarding cache of uip-fw.c, which remembers what was sent for FW_TIME periodic calls. */
module FwCache {
  import opened Bytes

  const FW_TIME: u16 := 20

  /** The header fields that identify a packet. */
  datatype Key = Key(ipid: u16, srcip: u32, destip: u32, proto: byte)

  datatype Entry = Entry(timer: u16, key: Key)

  /** No timer exceeds FW_TIME, which fwcache_register relies on to find an entry at all. */
  ghost predicate Good(c: seq<Entry>) {
    c != [] && forall i :: 0 <= i < |c| ==> c[i].timer <= FW_TIME
  }

  predicate Hit(c: seq<Entry>, k: Key) {
    exists i :: 0 <= i < |c| && c[i].timer != 0 && c[i].key == k
  }

  ghost predicate AllLive(c: seq<Entry>) {
    forall i :: 0 <= i < |c| ==> c[i].timer > 0
  }

  /** The entry fwcache_register overwrites: the first dead one, else the last of those with the smallest timer. */
  ghost predicate IsVictim(c: seq<Entry>, v: int) {
    && 0 <= v < |c|
    && (c[v].timer == 0 ==> forall i :: 0 <= i < v ==> c[i].timer > 0)
    && (c[v].timer > 0 ==> forall i :: 0 <= i < |c| ==> c[v].timer <= c[i].timer && (i > v ==> c[v].timer < c[i].timer))
  }

  lemma VictimIsUnique(c: seq<Entry>, v: int, w: int)
    requires IsVictim(c, v) && IsVictim(c, w)
    ensures v == w
  {
  }

  lemma {:induction false} VictimExists(c: seq<Entry>)
    requires c != []
    ensures exists v :: IsVictim(c, v)
  {
    var n := |c| - 1;
    if n == 0 {
      assert IsVictim(c, 0);
    } else {
      VictimExists(c[..n]);
      var v :| IsVictim(c[..n], v);
      assert forall i :: 0 <= i < n ==> c[i] == c[..n][i];
      if c[v].timer == 0 || c[v].timer < c[n].timer {
        assert IsVictim(c, v);
      } else {
        assert IsVictim(c, n);
      }
    }
  }

  ghost function Victim(c: seq<Entry>): (v: int)
    requires c != []
    ensures IsVictim(c, v)
  {
    VictimExists(c);
    var v :| IsVictim(c, v);
    v
  }

  ghost function Register(c: seq<Entry>, k: Key): (r: seq<Entry>)
    requires c != []
    ensures |r| == |c|
  {
    c[Victim(c) := Entry(FW_TIME, k)]
  }

  function Older(e: Entry): Entry { if e.timer > 0 then e.(timer := e.timer - 1) else e }

  function Tick(c: seq<Entry>): (r: seq<Entry>)
    ensures |r| == |c|
  {
    seq(|c|, i requires 0 <= i < |c| => Older(c[i]))
  }

  // ---- The code ----

  class Cache {
    const fwcache: array<Entry>

    constructor (size: nat)
      requires size > 0
      ensures fresh(fwcache) && fwcache.Length == size && Good(fwcache[..])
      ensures forall k :: !Hit(fwcache[..], k)
    {
      fwcache := new Entry[size](i => Entry(0, Key(0, 0, 0, 0)));
    }

    /** The duplicate test of uip_fw_forward. */
    method Contains(k: Key) returns (hit: bool)
      ensures hit == Hit(fwcache[..], k)
    {
      var i := 0;
      while i < fwcache.Length
        invariant 0 <= i <= fwcache.Length
        invariant !Hit(fwcache[..i], k)
      {
        if fwcache[i].timer != 0 && fwcache[i].key == k {
          assert fwcache[..][i] == fwcache[i];
          return true;
        }
        i := i + 1;
      }
      assert fwcache[..] == fwcache[..i];
      return false;
    }

    /** fwcache_register. */
    method FwcacheRegister(k: Key)
      requires Good(fwcache[..])
      modifies fwcache
      ensures fwcache[..] == Register(old(fwcache[..]), k) && Good(fwcache[..])
    {
      ghost var c := fwcache[..];
      var oldest := FW_TIME;
      var fw: Option<nat> := None;
      var i := 0;
      while i < fwcache.Length
        invariant 0 <= i <= fwcache.Length
        invariant AllLive(c[..i]) && oldest <= FW_TIME
        invariant i > 0 ==> fw.Some? && fw.value < i && c[fw.value].timer == oldest && IsVictim(c[..i], fw.value)
        invariant i == 0 ==> oldest == FW_TIME
      {
        ghost var before := c[..i];
        assert c[..i + 1] == before + [c[i]];
        if fwcache[i].timer == 0 {
          fw := Some(i);
          break;
        } else if fwcache[i].timer <= oldest {
          fw := Some(i);
          oldest := fwcache[i].timer;
        }
        i := i + 1;
      }
      assert fw.Some?;
      assert IsVictim(c, fw.value) by {
        if i == fwcache.Length { assert c[..i] == c; }
      }
      VictimIsUnique(c, fw.value, Victim(c));
      fwcache[fw.value] := Entry(FW_TIME, k);
    }

    /** uip_fw_periodic. */
    method Periodic()
      requires Good(fwcache[..])
      modifies fwcache
      ensures fwcache[..] == Tick(old(fwcache[..])) && Good(fwcache[..])
    {
      var i := 0;
      while i < fwcache.Length
        invariant 0 <= i <= fwcache.Length
        invariant forall j :: 0 <= j < i ==> fwcache[j] == Older(old(fwcache[j]))
        invariant forall j :: i <= j < fwcache.Length ==> fwcache[j] == old(fwcache[j])
      {
        if fwcache[i].timer > 0 {
          fwcache[i] := fwcache[i].(timer := fwcache[i].timer - 1);
        }
        i := i + 1;
      }
    }
  }

  // ---- How long an entry lasts ----

  /** The cache still holds k, for at least t more periodic calls. */
  ghost predicate Holds(c: seq<Entry>, k: Key, t: int) {
    exists i :: 0 <= i < |c| && c[i].key == k && c[i].timer >= t
  }

  /** Registering another packet has overwritten an entry for k although no entry had expired. */
  ghost predicate Displaced(c: seq<Entry>, d: seq<Entry>, k: Key) {
    c != [] && AllLive(c) && c[Victim(c)].key == k && exists other :: other != k && d == Register(c, other)
  }

  /** A dropped duplicate, another registration of k and a periodic call displace nothing. */
  lemma DisplacedMeans(c: seq<Entry>, k: Key)
    requires c != []
    ensures !Displaced(c, c, k) && !Displaced(c, Register(c, k), k) && !Displaced(c, Tick(c), k)
  {
    forall d, other | other != k && d == Register(c, other) ensures d[Victim(c)] == Entry(FW_TIME, other) {
    }
    assert Register(c, k)[Victim(c)] == Entry(FW_TIME, k);
    assert Tick(c)[Victim(c)] == Older(c[Victim(c)]);
  }

  /** What a periodic call (aged) or any other call does to the cache. */
  ghost predicate Moves(c: seq<Entry>, d: seq<Entry>, aged: bool) {
    if aged then d == Tick(c) else d == c || (c != [] && exists k :: d == Register(c, k))
  }

  lemma RegisteredHolds(c: seq<Entry>, k: Key)
    requires Good(c)
    ensures Good(Register(c, k)) && Holds(Register(c, k), k, FW_TIME)
  {
    assert Register(c, k)[Victim(c)] == Entry(FW_TIME, k);
  }

  lemma TickHolds(c: seq<Entry>, k: Key, t: int)
    requires Good(c) && Holds(c, k, t)
    ensures Good(Tick(c)) && Holds(Tick(c), k, t - 1)
  {
    var i :| 0 <= i < |c| && c[i].key == k && c[i].timer >= t;
    assert Tick(c)[i].key == k && Tick(c)[i].timer >= t - 1;
  }

  lemma RegisterHolds(c: seq<Entry>, k: Key, t: int, other: Key)
    requires Good(c) && Holds(c, k, t) && t > 0
    ensures Good(Register(c, other)) && (Holds(Register(c, other), k, t) || Displaced(c, Register(c, other), k))
  {
    var i :| 0 <= i < |c| && c[i].key == k && c[i].timer >= t;
    if i != Victim(c) {
      assert Register(c, other)[i] == c[i];
    } else if other == k {
      assert Register(c, other)[i] == Entry(FW_TIME, k);
    }
  }

  lemma MoveHolds(c: seq<Entry>, d: seq<Entry>, aged: bool, k: Key, t: int)
    requires Good(c) && Holds(c, k, t) && t > 0 && Moves(c, d, aged)
    ensures Good(d) && (Holds(d, k, if aged then t - 1 else t) || Displaced(c, d, k))
  {
    if aged {
      TickHolds(c, k, t);
    } else if d != c {
      var other :| d == Register(c, other);
      RegisterHolds(c, k, t, other);
    }
  }

  /** The caches a run goes through, `aged` saying which calls were periodic. */
  ghost predicate IsTrace(cs: seq<seq<Entry>>, aged: seq<bool>) {
    |cs| == |aged| + 1 && forall n :: 0 <= n < |aged| ==> Moves(cs[n], cs[n + 1], aged[n])
  }

  function Periods(aged: seq<bool>): nat {
    if aged == [] then 0 else Periods(aged[..|aged| - 1]) + if aged[|aged| - 1] then 1 else 0
  }

  ghost predicate NeverDisplaced(cs: seq<seq<Entry>>, k: Key) {
    forall n :: 0 <= n < |cs| - 1 ==> !Displaced(cs[n], cs[n + 1], k)
  }

  /** An entry lasts FW_TIME periodic calls unless it is displaced while every entry is live. */
  lemma {:induction false} EntryLasts(cs: seq<seq<Entry>>, aged: seq<bool>, k: Key, t: int)
    requires IsTrace(cs, aged) && Good(cs[0]) && Holds(cs[0], k, t) && Periods(aged) < t && NeverDisplaced(cs, k)
    ensures Good(cs[|aged|]) && Holds(cs[|aged|], k, t - Periods(aged))
    decreases |aged|
  {
    if aged != [] {
      var n := |aged| - 1;
      var front := cs[..n + 1];
      assert forall i :: 0 <= i <= n ==> front[i] == cs[i];
      EntryLasts(front, aged[..n], k, t);
      MoveHolds(cs[n], cs[n + 1], aged[n], k, t - Periods(aged[..n]));
    }
  }

  // ---- And no longer ----

  /** No call of the run has registered k. */
  ghost predicate NeverRegistered(cs: seq<seq<Entry>>, aged: seq<bool>, k: Key) {
    |cs| == |aged| + 1 && forall n :: 0 <= n < |aged| ==> MovesWithout(cs[n], cs[n + 1], aged[n], k)
  }

  ghost predicate MovesWithout(c: seq<Entry>, d: seq<Entry>, aged: bool, k: Key) {
    if aged then d == Tick(c) else d == c || (c != [] && exists other :: other != k && d == Register(c, other))
  }

  ghost predicate AtMost(c: seq<Entry>, k: Key, t: int) {
    forall i :: 0 <= i < |c| && c[i].key == k ==> c[i].timer <= t
  }

  lemma MoveWithoutAges(c: seq<Entry>, d: seq<Entry>, aged: bool, k: Key, t: nat)
    requires MovesWithout(c, d, aged, k) && AtMost(c, k, t)
    ensures AtMost(d, k, if aged && t > 0 then t - 1 else t)
  {
  }

  /** What is not registered again is forgotten after FW_TIME periodic calls. */
  lemma {:induction false} EntryExpires(cs: seq<seq<Entry>>, aged: seq<bool>, k: Key)
    requires NeverRegistered(cs, aged, k) && Good(cs[0])
    ensures AtMost(cs[|aged|], k, if Periods(aged) <= FW_TIME then FW_TIME - Periods(aged) else 0)
    ensures Periods(aged) >= FW_TIME ==> !Hit(cs[|aged|], k)
    decreases |aged|
  {
    if aged != [] {
      var n := |aged| - 1;
      var front := cs[..n + 1];
      assert forall i :: 0 <= i <= n ==> front[i] == cs[i];
      EntryExpires(front, aged[..n], k);
      var p := Periods(aged[..n]);
      MoveWithoutAges(cs[n], cs[n + 1], aged[n], k, if p <= FW_TIME then FW_TIME - p else 0);
    }
  }
}
