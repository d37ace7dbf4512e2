/** The DNS messages of resolv.cpp: the name encoder, parse_name, and the walk over the answers. */
module Dns {
  import opened Bytes
  import opened SeqNumbers
  import opened Packet

  const DOT: byte := 46
  const DNS_HDR_LEN: nat := 12

  // ---- Names ----

  /** The index of the first dot, or the length. */
  function LabelEnd(name: seq<byte>): (e: nat)
    ensures e <= |name| && (forall i :: 0 <= i < e ==> name[i] != DOT) && (e < |name| ==> name[e] == DOT)
  {
    if name == [] || name[0] == DOT then 0 else 1 + LabelEnd(name[1..])
  }

  /** A hostname cut at its dots. */
  function Labels(name: seq<byte>): (ls: seq<seq<byte>>)
    ensures |ls| > 0
  {
    var e := LabelEnd(name);
    if e == |name| then [name] else [name[..e]] + Labels(name[e + 1..])
  }

  function Joined(ls: seq<seq<byte>>): seq<byte> {
    if ls == [] then [] else if |ls| == 1 then ls[0] else ls[0] + [DOT] + Joined(ls[1..])
  }

  /** Section 3.1 of RFC 1035: each label behind its length, without the final zero. */
  function Encoded(ls: seq<seq<byte>>): seq<byte>
    requires Short(ls)
  {
    if ls == [] then [] else [|ls[0]|] + ls[0] + Encoded(ls[1..])
  }

  /** Labels as section 3.1 of RFC 1035 allows them, and none of them empty. */
  predicate Plain(ls: seq<seq<byte>>) {
    forall i :: 0 <= i < |ls| ==> 0 < |ls[i]| < 0x40
  }

  /** Labels whose length fits into a byte. */
  predicate Short(ls: seq<seq<byte>>) {
    forall i :: 0 <= i < |ls| ==> |ls[i]| < 0x100
  }

  /** The labels of an uncompressed name at p, and the index behind the name. */
  function Decoded(m: seq<byte>, p: nat): Option<(seq<seq<byte>>, nat)>
    decreases |m| - p
  {
    if p >= |m| then None
    else if m[p] == 0 then Some(([], p + 1))
    else if m[p] >= 0x40 || p + 1 + m[p] > |m| then None
    else WithLabel(m[p + 1..p + 1 + m[p]], Decoded(m, p + 1 + m[p]))
  }

  function WithLabel(l: seq<byte>, o: Option<(seq<seq<byte>>, nat)>): Option<(seq<seq<byte>>, nat)> {
    match o
    case None => None
    case Some(d) => Some(([l] + d.0, d.1))
  }

  /** parse_name; what lies behind the message reads as zero. */
  function ParseName(m: seq<byte>, query: nat): nat
    decreases if query < |m| then |m| - query else 0
  {
    var next := query + 1 + At(m, query);
    if At(m, next) == 0 then next + 1 else ParseName(m, next)
  }

  method ParseNameLoop(m: seq<byte>, start: nat) returns (query: nat)
    ensures query == ParseName(m, start)
  {
    query := start;
    while true
      invariant ParseName(m, query) == ParseName(m, start)
      decreases if query < |m| then |m| - query else 0
    {
      ghost var here := query;
      var n := At(m, query);
      query := query + 1;
      while n > 0
        invariant 0 <= n && query + n == here + 1 + At(m, here)
      {
        query := query + 1;
        n := n - 1;
      }
      if At(m, query) == 0 { break; }
    }
    query := query + 1;
  }

  lemma {:induction false} JoinedLabels(name: seq<byte>)
    ensures Joined(Labels(name)) == name
    decreases |name|
  {
    var e := LabelEnd(name);
    if e < |name| {
      JoinedLabels(name[e + 1..]);
      CutAtDot(name, e);
      JoinedOne(name[..e], Labels(name[e + 1..]));
    }
  }

  lemma CutAtDot(name: seq<byte>, e: nat)
    requires e < |name| && name[e] == DOT
    ensures name == name[..e] + [DOT] + name[e + 1..]
  {
  }

  lemma JoinedOne(l: seq<byte>, ls: seq<seq<byte>>)
    requires ls != []
    ensures Joined([l] + ls) == l + [DOT] + Joined(ls)
  {
    assert ([l] + ls)[1..] == ls;
  }

  lemma {:induction false} LabelsAreShort(name: seq<byte>)
    ensures forall i :: 0 <= i < |Labels(name)| ==> |Labels(name)[i]| <= |name|
    decreases |name|
  {
    var e := LabelEnd(name);
    if e < |name| { LabelsAreShort(name[e + 1..]); }
  }

  lemma {:induction false} EncodedLength(name: seq<byte>)
    requires |name| < 0x100
    ensures Short(Labels(name)) && |Encoded(Labels(name))| == |name| + 1
    decreases |name|
  {
    var e := LabelEnd(name);
    LabelsAreShort(name);
    if e < |name| {
      EncodedLength(name[e + 1..]);
      EncodedCons(name[..e], Labels(name[e + 1..]));
    }
  }

  lemma EncodedCons(l: seq<byte>, ls: seq<seq<byte>>)
    requires |l| < 0x100 && Short(ls)
    ensures Short([l] + ls) && |Encoded([l] + ls)| == 1 + |l| + |Encoded(ls)|
  {
    assert ([l] + ls)[1..] == ls;
  }

  lemma HasFirst(m: seq<byte>, p: nat, ls: seq<seq<byte>>, tail: seq<byte>)
    requires ls != [] && Short(ls) && Has(m, p, Encoded(ls) + tail)
    ensures p < |m| && m[p] == |ls[0]| && Has(m, p + 1, ls[0]) && Has(m, p + 1 + |ls[0]|, Encoded(ls[1..]) + tail)
  {
    UnfoldEncoded(ls);
    HasThree(m, p, |ls[0]|, ls[0], Encoded(ls[1..]), tail);
  }

  lemma UnfoldEncoded(ls: seq<seq<byte>>)
    requires ls != [] && Short(ls)
    ensures Encoded(ls) == [|ls[0]|] + ls[0] + Encoded(ls[1..])
  {
  }

  lemma HasThree(m: seq<byte>, p: nat, n: byte, l: seq<byte>, rest: seq<byte>, tail: seq<byte>)
    requires Has(m, p, [n] + l + rest + tail)
    ensures p < |m| && m[p] == n && Has(m, p + 1, l) && Has(m, p + 1 + |l|, rest + tail)
  {
    assert [n] + l + rest + tail == [n] + (l + (rest + tail));
    HasParts(m, p, [n], l + (rest + tail));
    HasParts(m, p + 1, l, rest + tail);
    assert m[p..p + 1] == [m[p]];
  }

  lemma DecodeOne(m: seq<byte>, p: nat, l: seq<byte>, rest: seq<seq<byte>>, end: nat)
    requires 0 < |l| < 0x40 && p < |m| && m[p] == |l| && Has(m, p + 1, l)
    requires Decoded(m, p + 1 + |l|) == Some((rest, end))
    ensures Decoded(m, p) == Some(([l] + rest, end))
  {
  }

  lemma EncodedOne(ls: seq<seq<byte>>)
    requires ls != [] && Plain(ls)
    ensures Plain(ls[1..]) && 0 < |ls[0]| < 0x40 && |Encoded(ls)| == 1 + |ls[0]| + |Encoded(ls[1..])|
    ensures [ls[0]] + ls[1..] == ls
  {
  }

  /** The byte where an encoded name starts: the first length, or the final zero. */
  lemma FirstByte(m: seq<byte>, p: nat, ls: seq<seq<byte>>)
    requires Plain(ls) && Has(m, p, Encoded(ls) + [0])
    ensures p < |m| && m[p] == if ls == [] then 0 else |ls[0]|
  {
    if ls == [] {
      assert Encoded(ls) + [0] == [0];
      assert m[p..p + 1] == [m[p]];
    } else {
      HasFirst(m, p, ls, [0]);
    }
  }

  /** An encoded name decodes to its labels. */
  lemma {:induction false} DecodeEncode(m: seq<byte>, p: nat, ls: seq<seq<byte>>)
    requires Plain(ls) && Has(m, p, Encoded(ls) + [0])
    ensures Decoded(m, p) == Some((ls, p + |Encoded(ls)| + 1))
    decreases |ls|
  {
    FirstByte(m, p, ls);
    if ls != [] {
      var l, rest := ls[0], ls[1..];
      EncodedOne(ls);
      HasFirst(m, p, ls, [0]);
      DecodeEncode(m, p + 1 + |l|, rest);
      DecodeOne(m, p, l, rest, p + 1 + |l| + |Encoded(rest)| + 1);
    }
  }

  lemma HasRest(m: seq<byte>, p: nat, ls: seq<seq<byte>>)
    requires ls != [] && Plain(ls) && Has(m, p, Encoded(ls) + [0])
    ensures At(m, p) == |ls[0]| && Plain(ls[1..]) && Has(m, p + 1 + |ls[0]|, Encoded(ls[1..]) + [0])
  {
    HasFirst(m, p, ls, [0]);
  }

  /** What parse_name makes of one label: it has found the end, or the next label. */
  lemma ParseOne(m: seq<byte>, p: nat, n: byte, rest: seq<seq<byte>>)
    requires At(m, p) == n && Plain(rest) && Has(m, p + 1 + n, Encoded(rest) + [0])
    ensures ParseName(m, p) == if rest == [] then p + 1 + n + 1 else ParseName(m, p + 1 + n)
  {
    FirstByte(m, p + 1 + n, rest);
  }

  /** parse_name skips it exactly. */
  lemma {:induction false} ParseSkipsEncoded(m: seq<byte>, p: nat, ls: seq<seq<byte>>)
    requires ls != [] && Plain(ls) && Has(m, p, Encoded(ls) + [0])
    ensures ParseName(m, p) == p + |Encoded(ls)| + 1
    decreases |ls|
  {
    EncodedOne(ls);
    HasRest(m, p, ls);
    ParseOne(m, p, |ls[0]|, ls[1..]);
    if |ls| > 1 { ParseSkipsEncoded(m, p + 1 + |ls[0]|, ls[1..]); }
  }

  /** The root name, which has no label, is never skipped exactly. */
  lemma RootIsNotSkipped(m: seq<byte>, p: nat)
    requires Has(m, p, [0])
    ensures ParseName(m, p) > p + 1
  {
    assert m[p..p + 1] == [m[p]];
    ParseMovesOn(m, p + 1);
  }

  lemma {:induction false} ParseMovesOn(m: seq<byte>, p: nat)
    ensures ParseName(m, p) > p + 1
    decreases if p < |m| then |m| - p else 0
  {
    var next := p + 1 + At(m, p);
    if At(m, next) != 0 { ParseMovesOn(m, next); }
  }

  /** An empty label ends the name early for whoever decodes it. */
  lemma {:induction false} EmptyLabelCutsName(m: seq<byte>, p: nat, ls: seq<seq<byte>>)
    requires (forall i :: 0 <= i < |ls| ==> |ls[i]| < 0x40) && !Plain(ls) && Has(m, p, Encoded(ls) + [0])
    ensures Decoded(m, p).Some? && Decoded(m, p).value.1 < p + |Encoded(ls)| + 1
    decreases |ls|
  {
    HasFirst(m, p, ls, [0]);
    if ls[0] != [] { EmptyLabelCutsName(m, p + 1 + |ls[0]|, ls[1..]); }
  }

  /**
    What the encoder writes for a hostname decodes back to that name, and is skipped exactly, if and only if no
    label of the name is empty; otherwise the decoder stops early.
   */
  lemma NameRoundTrip(name: seq<byte>, m: seq<byte>, p: nat)
    requires |name| < 0x20 && Short(Labels(name)) && Has(m, p, Encoded(Labels(name)) + [0])
    ensures Decoded(m, p).Some?
    ensures
      Plain(Labels(name)) <==> Joined(Decoded(m, p).value.0) == name && Decoded(m, p).value.1 == p + |name| + 2
    ensures Plain(Labels(name)) ==> ParseName(m, p) == p + |name| + 2
  {
    LabelsAreShort(name);
    EncodedLength(name);
    if Plain(Labels(name)) {
      DecodeEncode(m, p, Labels(name));
      ParseSkipsEncoded(m, p, Labels(name));
      JoinedLabels(name);
    } else {
      EmptyLabelCutsName(m, p, Labels(name));
    }
  }

  // ---- Answers ----

  datatype Owner = Named(labels: seq<seq<byte>>) | Pointer(hi: byte, lo: byte)

  datatype Record = Record(owner: Owner, rtype: u16, rclass: u16, ttl: u32, rdata: seq<byte>)

  /** Owner names as plain labels or one pointer (section 4.1.4 of RFC 1035), and data that fits its length field. */
  predicate WellFormed(r: Record) {
    && |r.rdata| < 0x1_0000
    && match r.owner
       case Named(ls) => ls != [] && Plain(ls)
       case Pointer(hi, lo) => hi >= 0xc0
  }

  predicate AllWellFormed(rs: seq<Record>) {
    forall i :: 0 <= i < |rs| ==> WellFormed(rs[i])
  }

  function OwnerBytes(o: Owner): seq<byte>
    requires o.Named? ==> Plain(o.labels)
  {
    match o
    case Named(ls) => Encoded(ls) + [0]
    case Pointer(hi, lo) => [hi, lo]
  }

  function RecordBytes(r: Record): seq<byte>
    requires WellFormed(r)
  {
    OwnerBytes(r.owner) + (Be16(r.rtype) + Be16(r.rclass) + Be32(r.ttl) + Be16(|r.rdata|) + r.rdata)
  }

  function AllBytes(rs: seq<Record>): seq<byte>
    requires AllWellFormed(rs)
  {
    if rs == [] then [] else RecordBytes(rs[0]) + AllBytes(rs[1..])
  }

  predicate IsAddress(r: Record) { r.rtype == 1 && r.rclass == 1 && |r.rdata| == 4 }

  /** The first A record of class IN. */
  function FirstAddress(rs: seq<Record>): Option<seq<byte>> {
    if rs == [] then None else if IsAddress(rs[0]) then Some(rs[0].rdata) else FirstAddress(rs[1..])
  }

  function Word(m: seq<byte>, p: nat): u16 { Join16(At(m, p), At(m, p + 1)) }

  function SkipOwner(m: seq<byte>, p: nat): nat { if At(m, p) >= 0x40 then p + 2 else ParseName(m, p) }

  /** Type A, class IN and four bytes of data, in the fixed part of a record at a. */
  predicate HoldsAddress(m: seq<byte>, a: nat) { Word(m, a) == 1 && Word(m, a + 2) == 1 && Word(m, a + 8) == 4 }

  function AddressAt(m: seq<byte>, a: nat): seq<byte> { [At(m, a + 10), At(m, a + 11), At(m, a + 12), At(m, a + 13)] }

  /** The loop over the answers of newdata. */
  function Walk(m: seq<byte>, p: nat, n: nat): Option<seq<byte>>
    decreases n
  {
    if n == 0 then None
    else
      var a := SkipOwner(m, p);
      if HoldsAddress(m, a) then Some(AddressAt(m, a)) else Walk(m, a + 10 + Word(m, a + 8), n - 1)
  }

  /** Past the owner name of an answer, which is compressed if one of its two highest bits is set. */
  method SkipName(m: seq<byte>, p: nat) returns (a: nat)
    ensures a == SkipOwner(m, p)
  {
    if At(m, p) >= 0x40 {
      a := p + 2;
    } else {
      a := ParseNameLoop(m, p);
    }
  }

  method WalkAnswers(m: seq<byte>, start: nat, count: byte) returns (r: Option<seq<byte>>)
    ensures r == Walk(m, start, count)
  {
    var nameptr: nat := start;
    var nanswers: nat := count;
    while nanswers > 0
      invariant Walk(m, nameptr, nanswers) == Walk(m, start, count)
    {
      nameptr := SkipName(m, nameptr);
      if HoldsAddress(m, nameptr) {
        return Some(AddressAt(m, nameptr));
      }
      nameptr := nameptr + 10 + Word(m, nameptr + 8);
      nanswers := nanswers - 1;
    }
    return None;
  }

  lemma OwnerIsSkipped(m: seq<byte>, p: nat, o: Owner)
    requires match o case Named(ls) => ls != [] && Plain(ls) case Pointer(hi, lo) => hi >= 0xc0
    requires Has(m, p, OwnerBytes(o))
    ensures SkipOwner(m, p) == p + |OwnerBytes(o)|
  {
    match o
    case Named(ls) =>
      HasFirst(m, p, ls, [0]);
      ParseSkipsEncoded(m, p, ls);
    case Pointer(hi, lo) =>
      assert m[p] == m[p..p + 2][0];
  }

  /** Any of the two highest bits makes a pointer, also the reserved forms; everything else is walked over as labels. */
  lemma PointersAreSkipped(m: seq<byte>, p: nat)
    requires p < |m|
    ensures m[p] / 64 > 0 ==> SkipOwner(m, p) == p + 2
    ensures m[p] / 64 == 0 ==> SkipOwner(m, p) == ParseName(m, p)
  {
  }

  lemma WordAt(m: seq<byte>, p: nat, x: u16)
    requires Has(m, p, Be16(x))
    ensures Word(m, p) == x
  {
  }

  lemma FieldsAreRead(m: seq<byte>, a: nat, r: Record)
    requires |r.rdata| < 0x1_0000
    requires Has(m, a, Be16(r.rtype) + Be16(r.rclass) + Be32(r.ttl) + Be16(|r.rdata|) + r.rdata)
    ensures Word(m, a) == r.rtype && Word(m, a + 2) == r.rclass && Word(m, a + 8) == |r.rdata|
    ensures |r.rdata| == 4 ==> r.rdata == AddressAt(m, a)
  {
    var t, c, s, l := Be16(r.rtype), Be16(r.rclass), Be32(r.ttl), Be16(|r.rdata|);
    HasParts(m, a, t + c + s + l, r.rdata);
    HasParts(m, a, t + c + s, l);
    HasParts(m, a, t + c, s);
    HasParts(m, a, t, c);
    WordAt(m, a, r.rtype);
    WordAt(m, a + 2, r.rclass);
    WordAt(m, a + 8, |r.rdata|);
    var d := m[a + 10..a + 10 + |r.rdata|];
    assert d == r.rdata;
    if |r.rdata| == 4 { assert d == [m[a + 10], m[a + 11], m[a + 12], m[a + 13]]; }
  }

  /** Where the fixed part of a record starts, and where the next record does. */
  lemma RecordIsRead(m: seq<byte>, p: nat, r: Record)
    requires WellFormed(r) && Has(m, p, RecordBytes(r))
    ensures
      var a := SkipOwner(m, p);
      && Word(m, a) == r.rtype && Word(m, a + 2) == r.rclass && Word(m, a + 8) == |r.rdata|
      && a + 10 + |r.rdata| == p + |RecordBytes(r)|
      && (|r.rdata| == 4 ==> r.rdata == AddressAt(m, a))
  {
    HasParts(m, p, OwnerBytes(r.owner), Be16(r.rtype) + Be16(r.rclass) + Be32(r.ttl) + Be16(|r.rdata|) + r.rdata);
    OwnerIsSkipped(m, p, r.owner);
    FieldsAreRead(m, p + |OwnerBytes(r.owner)|, r);
  }

  lemma AllParts(m: seq<byte>, p: nat, rs: seq<Record>)
    requires rs != [] && AllWellFormed(rs) && Has(m, p, AllBytes(rs))
    ensures WellFormed(rs[0]) && AllWellFormed(rs[1..])
    ensures Has(m, p, RecordBytes(rs[0])) && Has(m, p + |RecordBytes(rs[0])|, AllBytes(rs[1..]))
  {
    UnfoldAll(rs);
    HasParts(m, p, RecordBytes(rs[0]), AllBytes(rs[1..]));
  }

  lemma UnfoldAll(rs: seq<Record>)
    requires rs != [] && AllWellFormed(rs)
    ensures WellFormed(rs[0]) && AllWellFormed(rs[1..]) && AllBytes(rs) == RecordBytes(rs[0]) + AllBytes(rs[1..])
  {
  }

  /** Where the walk goes from an answer at p. */
  function NextAnswer(m: seq<byte>, p: nat): nat { SkipOwner(m, p) + 10 + Word(m, SkipOwner(m, p) + 8) }

  /** The code sees in the answer at p what the record r says. */
  predicate Seen(m: seq<byte>, p: nat, r: Record) {
    && (HoldsAddress(m, SkipOwner(m, p)) <==> IsAddress(r))
    && (IsAddress(r) ==> AddressAt(m, SkipOwner(m, p)) == r.rdata)
  }

  predicate AllSeen(m: seq<byte>, p: nat, rs: seq<Record>)
    decreases |rs|
  {
    rs != [] ==> Seen(m, p, rs[0]) && AllSeen(m, NextAnswer(m, p), rs[1..])
  }

  lemma RecordIsSeen(m: seq<byte>, p: nat, r: Record)
    requires WellFormed(r) && Has(m, p, RecordBytes(r))
    ensures Seen(m, p, r) && NextAnswer(m, p) == p + |RecordBytes(r)|
  {
    RecordIsRead(m, p, r);
    FieldsAreSeen(m, SkipOwner(m, p), r);
  }

  lemma FieldsAreSeen(m: seq<byte>, a: nat, r: Record)
    requires Word(m, a) == r.rtype && Word(m, a + 2) == r.rclass && Word(m, a + 8) == |r.rdata|
    requires |r.rdata| == 4 ==> r.rdata == AddressAt(m, a)
    ensures (HoldsAddress(m, a) <==> IsAddress(r)) && (IsAddress(r) ==> AddressAt(m, a) == r.rdata)
  {
  }

  lemma FirstIsSeen(m: seq<byte>, p: nat, rs: seq<Record>)
    requires rs != [] && AllWellFormed(rs) && Has(m, p, AllBytes(rs))
    ensures Seen(m, p, rs[0]) && AllWellFormed(rs[1..]) && Has(m, NextAnswer(m, p), AllBytes(rs[1..]))
  {
    AllParts(m, p, rs);
    RecordIsSeen(m, p, rs[0]);
  }

  lemma {:induction false} BytesAreSeen(m: seq<byte>, p: nat, rs: seq<Record>)
    requires AllWellFormed(rs) && Has(m, p, AllBytes(rs))
    ensures AllSeen(m, p, rs)
    decreases |rs|
  {
    if rs != [] {
      FirstIsSeen(m, p, rs);
      BytesAreSeen(m, NextAnswer(m, p), rs[1..]);
    }
  }

  /** The walk finds the first address among the records it looks at. */
  lemma {:induction false} WalkFindsFirst(m: seq<byte>, p: nat, rs: seq<Record>, n: nat)
    requires AllSeen(m, p, rs) && n <= |rs|
    ensures Walk(m, p, n) == FirstAddress(rs[..n])
    decreases n
  {
    if n > 0 {
      WalkFindsFirst(m, NextAnswer(m, p), rs[1..], n - 1);
      assert rs[..n][1..] == rs[1..][..n - 1];
    }
  }

  // ---- Messages ----

  /** The query check_entries sends for entry i. */
  function Query(i: byte, name: seq<byte>): seq<byte>
    requires Short(Labels(name))
  {
    [0, i, 1, 0, 0, 1, 0, 0, 0, 0, 0, 0] + Encoded(Labels(name)) + [0, 0, 1, 0, 1]
  }

  /** A query asks for the address of exactly the given name, provided that none of its labels is empty. */
  lemma QueryAsksForName(i: byte, name: seq<byte>)
    requires |name| < 0x20 && Plain(Labels(name))
    ensures
      var q, end := Query(i, name), DNS_HDR_LEN + |name| + 2;
      && IdOf(q) == i && Decoded(q, DNS_HDR_LEN) == Some((Labels(name), end)) && Joined(Labels(name)) == name
      && |q| == end + 4 && Word(q, end) == 1 && Word(q, end + 2) == 1
      && Word(q, 2) == 0x0100 && Word(q, 4) == 1 && Word(q, 6) == Word(q, 8) == Word(q, 10) == 0
  {
    EncodedLength(name);
    JoinedLabels(name);
    QueryIsRead(i, Labels(name), Query(i, name));
  }

  lemma QueryIsRead(i: byte, ls: seq<seq<byte>>, q: seq<byte>)
    requires Plain(ls) && q == [0, i, 1, 0, 0, 1, 0, 0, 0, 0, 0, 0] + Encoded(ls) + [0, 0, 1, 0, 1]
    ensures
      var end := DNS_HDR_LEN + |Encoded(ls)| + 1;
      && IdOf(q) == i && Decoded(q, DNS_HDR_LEN) == Some((ls, end))
      && |q| == end + 4 && Word(q, end) == 1 && Word(q, end + 2) == 1
      && Word(q, 2) == 0x0100 && Word(q, 4) == 1 && Word(q, 6) == Word(q, 8) == Word(q, 10) == 0
  {
    QueryParts(q, [0, i, 1, 0, 0, 1, 0, 0, 0, 0, 0, 0], Encoded(ls));
    DecodeEncode(q, DNS_HDR_LEN, ls);
  }

  lemma QueryParts(q: seq<byte>, h: seq<byte>, name: seq<byte>)
    requires q == h + name + [0, 0, 1, 0, 1] && |h| == 12
    ensures Has(q, 12, name + [0]) && forall i :: 0 <= i < 12 ==> q[i] == h[i]
    ensures Word(q, 12 + |name| + 1) == 1 && Word(q, 12 + |name| + 3) == 1
  {
    assert q[12..12 + |name| + 1] == name + [0];
  }

  /** A response with one question: any flags and further counts, the records, anything behind them. */
  function Response(id: u16, flags1: byte, flags2: byte, counts: seq<byte>, question: seq<seq<byte>>, kind: seq<byte>,
                    rs: seq<Record>, rest: seq<byte>): seq<byte>
    requires |counts| == 4 && |kind| == 4 && |rs| < 0x1_0000 && Plain(question) && AllWellFormed(rs)
  {
    (Be16(id) + [flags1, flags2, 0, 1] + Be16(|rs|) + counts) + (Encoded(question) + [0] + kind) + AllBytes(rs) + rest
  }

  /** Conversion of the count of answers to uint8_t. */
  function Low8(n: u16): (r: byte)
    ensures r <= n
  {
    n % 0x100
  }

  /** The records the code looks at: all, if there are fewer than 256. */
  function LookedAt(rs: seq<Record>): seq<Record>
    requires |rs| < 0x1_0000
  {
    rs[..Low8(|rs|)]
  }

  /** What newdata reads of the header, and the address it finds; the count of answers is cut to eight bits. */
  function IdOf(m: seq<byte>): u16 { Word(m, 0) }
  function ErrorOf(m: seq<byte>): nat { At(m, 3) % 0x10 }
  function AnswerCount(m: seq<byte>): byte { At(m, 7) }
  function AddressIn(m: seq<byte>): Option<seq<byte>> {
    Walk(m, ParseName(m, DNS_HDR_LEN) + 4, AnswerCount(m))
  }

  lemma HeaderIsRead(m: seq<byte>, id: u16, flags1: byte, flags2: byte, n: u16, counts: seq<byte>)
    requires |counts| == 4 && Has(m, 0, Be16(id) + [flags1, flags2, 0, 1] + Be16(n) + counts)
    ensures IdOf(m) == id && ErrorOf(m) == flags2 % 0x10 && AnswerCount(m) == Low8(n)
  {
    var h := Be16(id) + [flags1, flags2, 0, 1] + Be16(n) + counts;
    assert forall i :: 0 <= i < 12 ==> m[i] == m[0..12][i] == h[i];
    assert Join16(h[6], h[7]) == n;
  }

  /**
    On every such response the code finds the address of the first A record of class IN among the first
    (number of answers modulo 256) ones.
   */
  lemma ResponseIsUnderstood(id: u16, flags1: byte, flags2: byte, counts: seq<byte>, question: seq<seq<byte>>,
                             kind: seq<byte>, rs: seq<Record>, rest: seq<byte>, m: seq<byte>)
    requires |counts| == 4 && |kind| == 4 && |rs| < 0x1_0000 && question != [] && Plain(question)
    requires AllWellFormed(rs)
    requires m == Response(id, flags1, flags2, counts, question, kind, rs, rest)
    ensures IdOf(m) == id && ErrorOf(m) == flags2 % 0x10 && AddressIn(m) == FirstAddress(LookedAt(rs))
  {
    var h := Be16(id) + [flags1, flags2, 0, 1] + Be16(|rs|) + counts;
    var q := Encoded(question) + [0];
    var records := AllBytes(rs);
    ResponseParts(m, h, q, kind, records, rest);
    HeaderIsRead(m, id, flags1, flags2, |rs|, counts);
    AddressIsFound(m, question, rs, 12 + |q| + 4);
  }

  lemma AddressIsFound(m: seq<byte>, question: seq<seq<byte>>, rs: seq<Record>, at: nat)
    requires question != [] && Plain(question) && AllWellFormed(rs) && |rs| < 0x1_0000 && AnswerCount(m) == Low8(|rs|)
    requires Has(m, 12, Encoded(question) + [0]) && at == 12 + |Encoded(question)| + 1 + 4 && Has(m, at, AllBytes(rs))
    ensures AddressIn(m) == FirstAddress(LookedAt(rs))
  {
    QuestionIsSkipped(m, question, at);
    BytesAreSeen(m, at, rs);
    WalkFindsFirst(m, at, rs, Low8(|rs|));
  }

  lemma QuestionIsSkipped(m: seq<byte>, question: seq<seq<byte>>, at: nat)
    requires question != [] && Plain(question) && Has(m, 12, Encoded(question) + [0])
    requires at == 12 + |Encoded(question)| + 1 + 4
    ensures AddressIn(m) == Walk(m, at, AnswerCount(m))
  {
    ParseSkipsEncoded(m, 12, question);
  }

  lemma ResponseParts(m: seq<byte>, h: seq<byte>, q: seq<byte>, kind: seq<byte>, records: seq<byte>, rest: seq<byte>)
    requires m == h + (q + kind) + records + rest && |h| == 12 && |kind| == 4
    ensures Has(m, 0, h) && Has(m, 12, q) && Has(m, 12 + |q| + 4, records)
  {
  }
}
