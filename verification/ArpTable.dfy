/** arp_table of uip_arp.cpp and the map from IP to Ethernet addresses it stands for. */
module ArpTable {
  import opened Bytes

  type Mac = m: seq<byte> | |m| == 6 witness [0, 0, 0, 0, 0, 0]

  /** One entry; the address 0.0.0.0 marks it unused. */
  datatype Slot = Slot(ip: u32, mac: Mac, time: byte)

  /** The first entry with the address, or the size of the table. */
  function Index(t: seq<Slot>, ip: u32): (i: nat)
    ensures i <= |t| && (i < |t| ==> t[i].ip == ip) && forall j :: 0 <= j < i ==> t[j].ip != ip
  {
    if t == [] then 0
    else
      var i := Index(t[..|t| - 1], ip);
      if i < |t| - 1 then i else if t[|t| - 1].ip == ip then |t| - 1 else |t|
  }

  ghost predicate Unique(t: seq<Slot>) {
    forall i, j :: 0 <= i < j < |t| && t[i].ip == t[j].ip ==> t[i].ip == 0
  }

  function Used(t: seq<Slot>): set<u32> {
    set i | 0 <= i < |t| && t[i].ip != 0 :: t[i].ip
  }

  function Bindings(t: seq<Slot>): map<u32, Mac> {
    map ip | ip in Used(t) :: t[Index(t, ip)].mac
  }

  predicate Full(t: seq<Slot>) { Index(t, 0) == |t| }

  // ---- Which entry an update takes ----

  /** arptime - time as the source computes it, on ints; negative once arptime has wrapped. */
  function Age(s: Slot, now: byte): int { now - s.time }

  /** The first entry of the greatest age, provided that one is positive; else the first entry. */
  ghost predicate IsOldest(t: seq<Slot>, now: byte, i: int) {
    && 0 <= i < |t|
    && (forall j :: 0 <= j < |t| ==> Age(t[j], now) <= Age(t[i], now) || Age(t[j], now) <= 0)
    && (forall j :: 0 <= j < i ==> Age(t[j], now) < Age(t[i], now))
    && (Age(t[i], now) <= 0 ==> i == 0)
  }

  lemma OldestIsUnique(t: seq<Slot>, now: byte, i: int, j: int)
    requires IsOldest(t, now, i) && IsOldest(t, now, j)
    ensures i == j
  {
  }

  lemma {:induction false} OldestExists(t: seq<Slot>, now: byte)
    requires t != []
    ensures exists i :: IsOldest(t, now, i)
  {
    var n := |t| - 1;
    if n == 0 {
      assert IsOldest(t, now, 0);
    } else {
      OldestExists(t[..n], now);
      var i :| IsOldest(t[..n], now, i);
      assert forall j :: 0 <= j < n ==> t[j] == t[..n][j];
      if Age(t[n], now) > Age(t[i], now) && Age(t[n], now) > 0 {
        assert IsOldest(t, now, n);
      } else {
        assert IsOldest(t, now, i);
      }
    }
  }

  ghost function Oldest(t: seq<Slot>, now: byte): (i: int)
    requires t != []
    ensures IsOldest(t, now, i)
  {
    OldestExists(t, now);
    var i :| IsOldest(t, now, i);
    i
  }

  ghost function Place(t: seq<Slot>, now: byte, ip: u32): (i: int)
    requires t != []
    ensures 0 <= i < |t|
  {
    if ip != 0 && Index(t, ip) < |t| then Index(t, ip)
    else if !Full(t) then Index(t, 0)
    else Oldest(t, now)
  }

  /** uip_arp_update. */
  ghost function Update(t: seq<Slot>, now: byte, ip: u32, mac: Mac): (r: seq<Slot>)
    requires t != []
    ensures |r| == |t|
  {
    t[Place(t, now, ip) := Slot(ip, mac, now)]
  }

  /** The ticks since an entry was made, which the 8-bit difference gives across one wrap of arptime. */
  function TrueAge(s: Slot, now: byte): byte { Wrap8(now - s.time) }

  /** Made before the last wrap of arptime. */
  predicate Wrapped(s: Slot, now: byte) { s.time > now }

  /**
    The victim is an entry of the greatest true age if and only if no entry was made before the last wrap of
    arptime, or else none was made in an earlier tick since, and the first entry of the table is the oldest of
    those from before.
   */
  lemma OldestIsOldest(t: seq<Slot>, now: byte)
    requires t != []
    ensures
      (forall j :: 0 <= j < |t| ==> TrueAge(t[j], now) <= TrueAge(t[Oldest(t, now)], now))
      <==> (|| (forall j :: 0 <= j < |t| ==> !Wrapped(t[j], now))
            || (&& (forall j :: 0 <= j < |t| ==> t[j].time >= now)
                && Wrapped(t[0], now) && forall j :: 0 <= j < |t| && Wrapped(t[j], now) ==> t[0].time <= t[j].time))
  {
    var v := Oldest(t, now);
    if forall j :: 0 <= j < |t| ==> !Wrapped(t[j], now) {
      forall j | 0 <= j < |t| ensures TrueAge(t[j], now) <= TrueAge(t[v], now) {
        assert !Wrapped(t[v], now) && Age(t[j], now) >= 0;
      }
    } else {
      var w :| 0 <= w < |t| && Wrapped(t[w], now);
      if Age(t[v], now) > 0 {
        assert t[v].time < now && TrueAge(t[w], now) > TrueAge(t[v], now);
      } else {
        assert v == 0;
        forall j | 0 <= j < |t| ensures t[j].time >= now {
          assert Age(t[j], now) <= 0;
        }
        assert TrueAge(t[w], now) > 0;
        forall j | 0 <= j < |t| && Wrapped(t[j], now) && Wrapped(t[0], now)
          ensures TrueAge(t[j], now) <= TrueAge(t[0], now) <==> t[0].time <= t[j].time
        {
        }
      }
    }
  }

  /** An instance: a one tick old entry goes before one that is ten ticks old. */
  lemma WrapMisleads(a: u32, b: u32, mac: Mac)
    ensures
      var t := [Slot(a, mac, 250), Slot(b, mac, 3)];
      Oldest(t, 4) == 1 && TrueAge(t[0], 4) == 10 && TrueAge(t[1], 4) == 1
  {
    var t := [Slot(a, mac, 250), Slot(b, mac, 3)];
    assert IsOldest(t, 4, 1);
    OldestIsUnique(t, 4, 1, Oldest(t, 4));
  }

  // ---- The table as a map ----

  lemma BindingAt(t: seq<Slot>, i: int)
    requires Unique(t) && 0 <= i < |t| && t[i].ip != 0
    ensures t[i].ip in Bindings(t) && Bindings(t)[t[i].ip] == t[i].mac
  {
  }

  lemma UsedMeansIndex(t: seq<Slot>, ip: u32)
    ensures ip in Used(t) <==> ip != 0 && Index(t, ip) < |t|
  {
  }

  lemma PlaceKeepsUnique(t: seq<Slot>, now: byte, ip: u32, mac: Mac)
    requires t != [] && Unique(t)
    ensures Unique(Update(t, now, ip, mac))
  {
  }

  lemma UsedAfterWrite(t: seq<Slot>, i: nat, s: Slot, ip: u32)
    requires i < |t| && Unique(t) && Unique(t[i := s])
    ensures ip in Used(t[i := s]) <==> ip != 0 && (ip == s.ip || (ip in Used(t) && ip != t[i].ip))
  {
    var r := t[i := s];
    if ip in Used(r) {
      var j :| 0 <= j < |r| && r[j].ip != 0 && r[j].ip == ip;
      assert j == i || t[j].ip in Used(t);
    }
    if ip in Used(t) && ip != t[i].ip {
      var j :| 0 <= j < |t| && t[j].ip != 0 && t[j].ip == ip;
      assert r[j].ip in Used(r);
    }
    if s.ip != 0 { assert r[i].ip in Used(r); }
  }

  lemma BindingAfterWrite(t: seq<Slot>, i: nat, s: Slot, ip: u32)
    requires i < |t| && Unique(t) && Unique(t[i := s]) && ip in Bindings(t[i := s])
    ensures Bindings(t[i := s])[ip] == if ip == s.ip then s.mac else if ip in Bindings(t) then Bindings(t)[ip] else []
  {
    var r := t[i := s];
    var j :| 0 <= j < |r| && r[j].ip != 0 && r[j].ip == ip;
    BindingAt(r, j);
    assert r[i] == s;
    if j != i {
      assert ip != s.ip;
      BindingAt(t, j);
    }
  }

  /** The map once the binding of `gone` has been replaced by what s holds. */
  function Rebound(m: map<u32, Mac>, gone: u32, s: Slot): map<u32, Mac> {
    if s.ip == 0 then m - {gone} else (m - {gone})[s.ip := s.mac]
  }

  lemma WriteAtAddress(t: seq<Slot>, i: nat, s: Slot, ip: u32)
    requires i < |t| && Unique(t) && Unique(t[i := s])
    ensures
      var m, w := Bindings(t[i := s]), Rebound(Bindings(t), t[i].ip, s);
      (ip in m <==> ip in w) && (ip in m ==> m[ip] == w[ip])
  {
    UsedAfterWrite(t, i, s, ip);
    NoZero(t);
    if ip in Bindings(t[i := s]) { BindingAfterWrite(t, i, s, ip); }
  }

  /** Writing one entry of a table without duplicates changes the map at two addresses at most. */
  lemma WriteAt(t: seq<Slot>, i: nat, s: Slot)
    requires i < |t| && Unique(t) && Unique(t[i := s])
    ensures Bindings(t[i := s]) == Rebound(Bindings(t), t[i].ip, s)
  {
    var m, w := Bindings(t[i := s]), Rebound(Bindings(t), t[i].ip, s);
    forall ip: u32 ensures (ip in m <==> ip in w) && (ip in m ==> m[ip] == w[ip]) {
      WriteAtAddress(t, i, s, ip);
    }
  }

  lemma NoZero(t: seq<Slot>)
    ensures 0 !in Used(t)
  {
  }

  /**
    An update sets exactly the binding it is given and keeps all others, except that a full table that does
    not hold the address loses the binding of its oldest entry.
   */
  lemma UpdateRefinesMap(t: seq<Slot>, now: byte, ip: u32, mac: Mac)
    requires t != [] && Unique(t) && ip != 0
    ensures Unique(Update(t, now, ip, mac))
    ensures ip in Bindings(t) || !Full(t) ==> Bindings(Update(t, now, ip, mac)) == Bindings(t)[ip := mac]
    ensures ip !in Bindings(t) && Full(t) ==>
      && t[Oldest(t, now)].ip in Bindings(t)
      && Bindings(Update(t, now, ip, mac)) == (Bindings(t) - {t[Oldest(t, now)].ip})[ip := mac]
  {
    PlaceKeepsUnique(t, now, ip, mac);
    UsedMeansIndex(t, ip);
    WriteAt(t, Place(t, now, ip), Slot(ip, mac, now));
    if Full(t) { BindingAt(t, Oldest(t, now)); }
  }

  /** An update for 0.0.0.0 binds nothing; it costs a full table its oldest binding. */
  lemma ZeroUpdate(t: seq<Slot>, now: byte, mac: Mac)
    requires t != [] && Unique(t)
    ensures Unique(Update(t, now, 0, mac))
    ensures !Full(t) ==> Bindings(Update(t, now, 0, mac)) == Bindings(t)
    ensures Full(t) ==> Bindings(Update(t, now, 0, mac)) == Bindings(t) - {t[Oldest(t, now)].ip}
  {
    PlaceKeepsUnique(t, now, 0, mac);
    WriteAt(t, Place(t, now, 0), Slot(0, mac, now));
    UsedMeansIndex(t, 0);
    assert Bindings(t) - {0} == Bindings(t);
  }

  lemma UsedOfLonger(t: seq<Slot>)
    requires t != [] && t[|t| - 1].ip != 0
    ensures Used(t) == Used(t[..|t| - 1]) + {t[|t| - 1].ip}
  {
  }

  /** A full table without duplicates binds as many addresses as it has entries. */
  lemma {:induction false} FullIsBig(t: seq<Slot>)
    requires Unique(t) && forall i :: 0 <= i < |t| ==> t[i].ip != 0
    ensures |Used(t)| == |t|
  {
    if t == [] {
      assert Used(t) == {};
    } else {
      var n := |t| - 1;
      FullIsBig(t[..n]);
      UsedOfLonger(t);
      assert t[n].ip !in Used(t[..n]);
    }
  }

  lemma KeysAreUsed(t: seq<Slot>)
    ensures Bindings(t).Keys == Used(t)
  {
  }

  lemma FullAndNew(t: seq<Slot>, ip: u32)
    requires Unique(t) && Full(t) && ip !in Used(t)
    ensures |Used(t) + {ip}| == |t| + 1
  {
    FullIsBig(t);
  }

  /** While the addresses fit into the table, an update forgets none. */
  lemma UpdateRemembers(t: seq<Slot>, now: byte, ip: u32, mac: Mac)
    requires t != [] && Unique(t) && ip != 0 && |Used(t) + {ip}| <= |t|
    ensures Unique(Update(t, now, ip, mac)) && Used(Update(t, now, ip, mac)) == Used(t) + {ip}
  {
    UpdateRefinesMap(t, now, ip, mac);
    KeysAreUsed(t);
    KeysAreUsed(Update(t, now, ip, mac));
    if Full(t) && ip !in Used(t) { FullAndNew(t, ip); }
  }
}
