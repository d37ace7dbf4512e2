/** The name table of resolv.cpp: queries, their retries, and the replies. */
module Resolver {
  import opened Bytes
  import opened SeqNumbers
  import opened Packet
  import opened Dns

  const MAX_RETRIES: byte := 8

  datatype Status = UNUSED | NEW | ASKING | DONE | ERROR

  /** The size of the name field, which strncpy leaves terminated for shorter names only. */
  const NAME_SIZE: nat := 32

  datatype NameMap = NameMap(state: Status, tmr: byte, retries: byte, err: byte, name: seq<byte>, ipaddr: seq<byte>)

  ghost predicate Valid(e: NameMap) {
    && |e.name| < NAME_SIZE
    && (e.state == ASKING ==> e.retries < MAX_RETRIES && 1 <= e.tmr <= if e.retries == 0 then 1 else e.retries)
  }

  ghost predicate AllValid(ns: seq<NameMap>) {
    forall i :: 0 <= i < |ns| ==> Valid(ns[i])
  }

  predicate Pending(e: NameMap) { e.state == NEW || e.state == ASKING }

  // ---- check_entries, entry by entry ----

  /** The timer of the entry runs out with this call. */
  predicate Expires(e: NameMap) { e.state == ASKING && e.tmr == 1 }

  /** The entry has a query sent in this call, which ends the call. */
  predicate Asks(e: NameMap) { e.state == NEW || (Expires(e) && e.retries + 1 != MAX_RETRIES) }

  /** The entry gives up in this call, and resolv_found is called with NULL for it. */
  predicate Fails(e: NameMap) { Expires(e) && e.retries + 1 == MAX_RETRIES }

  function Poked(e: NameMap): NameMap
    requires e.state == ASKING ==> e.tmr > 0 && e.retries < 0xff
  {
    match e.state
    case NEW => e.(state := ASKING, tmr := 1, retries := 0)
    case ASKING =>
      if e.tmr > 1 then e.(tmr := e.tmr - 1)
      else if e.retries + 1 == MAX_RETRIES then e.(tmr := 0, retries := MAX_RETRIES, state := ERROR)
      else e.(tmr := e.retries + 1, retries := e.retries + 1)
    case UNUSED | DONE | ERROR => e
  }

  /** The call gets as far as entry i. */
  predicate Reached(ns: seq<NameMap>, i: nat)
    requires i <= |ns|
  {
    forall j :: 0 <= j < i ==> !Asks(ns[j])
  }

  ghost function Poll(ns: seq<NameMap>): (r: seq<NameMap>)
    requires AllValid(ns)
    ensures |r| == |ns|
  {
    seq(|ns|, i requires 0 <= i < |ns| => if Reached(ns, i) then Poked(ns[i]) else ns[i])
  }

  /** The entry asked for in this call. */
  predicate AskedNow(ns: seq<NameMap>, i: nat)
    requires i < |ns|
  {
    Reached(ns, i) && Asks(ns[i])
  }

  predicate FailsNow(ns: seq<NameMap>, i: nat)
    requires i < |ns|
  {
    Reached(ns, i) && Fails(ns[i])
  }

  // ---- newdata ----

  /** The entry a message is for, if that entry is waiting for one. */
  function Addressee(ns: seq<NameMap>, m: seq<byte>): Option<byte> {
    var i := At(m, 1);
    if i < |ns| && ns[i].state == ASKING then Some(i) else None
  }

  function Answered(e: NameMap, m: seq<byte>): NameMap {
    if ErrorOf(m) != 0 then e.(state := ERROR, err := ErrorOf(m))
    else
      match AddressIn(m)
      case None => e.(state := DONE, err := 0)
      case Some(a) => e.(state := DONE, err := 0, ipaddr := a)
  }

  /** Whether resolv_found is called for the entry. */
  predicate Reports(m: seq<byte>) { ErrorOf(m) != 0 || AddressIn(m).Some? }

  function NewData(ns: seq<NameMap>, m: seq<byte>): (r: seq<NameMap>)
    ensures |r| == |ns|
  {
    match Addressee(ns, m)
    case None => ns
    case Some(i) => ns[i := Answered(ns[i], m)]
  }

  // ---- The code ----

  lemma ShortLabels(name: seq<byte>)
    requires |name| < NAME_SIZE
    ensures Short(Labels(name))
  {
    LabelsAreShort(name);
  }

  /** The bytes the encoder writes for a name. */
  function EncodedName(name: seq<byte>): seq<byte>
    requires |name| < NAME_SIZE
  {
    ShortLabels(name);
    Encoded(Labels(name))
  }

  lemma LabelAdded(name: seq<byte>, s: nat, e: nat, done: seq<byte>, whole: seq<byte>)
    requires |name| < NAME_SIZE && s <= e <= |name| && (forall i :: s <= i < e ==> name[i] != DOT) && (e < |name| ==> name[e] == DOT)
    requires done + EncodedName(name[s..]) == whole
    ensures done + ([e - s] + name[s..e]) + (if e < |name| then EncodedName(name[e + 1..]) else []) == whole
  {
    EncodedFrom(name, s, e);
    Associate(done, [e - s] + name[s..e], if e < |name| then EncodedName(name[e + 1..]) else []);
  }

  lemma LabelEndIs(name: seq<byte>, e: nat)
    requires e <= |name| && (forall i :: 0 <= i < e ==> name[i] != DOT) && (e < |name| ==> name[e] == DOT)
    ensures LabelEnd(name) == e
  {
  }

  /** One label of the encoding, up to the dot at index e or the end. */
  lemma EncodedFrom(name: seq<byte>, s: nat, e: nat)
    requires |name| < NAME_SIZE && s <= e <= |name| && (forall i :: s <= i < e ==> name[i] != DOT) && (e < |name| ==> name[e] == DOT)
    ensures EncodedName(name[s..]) == [e - s] + name[s..e] + if e < |name| then EncodedName(name[e + 1..]) else []
  {
    var rest := name[s..];
    ShortLabels(rest);
    LabelEndIs(rest, e - s);
    assert rest[..e - s] == name[s..e];
    if e < |name| {
      ShortLabels(name[e + 1..]);
      assert rest[e - s + 1..] == name[e + 1..];
      assert Labels(rest) == [name[s..e]] + Labels(name[e + 1..]);
      assert Labels(rest)[1..] == Labels(name[e + 1..]);
    } else {
      assert rest == name[s..e] && Labels(rest) == [rest];
      assert Encoded(Labels(rest)) == [|rest|] + rest + Encoded([]);
    }
  }

  /** The table once the entries before i have been looked at, none of them having asked. */
  ghost function Partly(ns: seq<NameMap>, i: nat): (r: seq<NameMap>)
    requires AllValid(ns)
    ensures |r| == |ns|
  {
    seq(|ns|, j requires 0 <= j < |ns| => if j < i then Poked(ns[j]) else ns[j])
  }

  class Resolv {
    const names: array<NameMap>
    const uip_appdata: array<byte>

    /** resolv_init on a table of any size. */
    constructor (entries: nat)
      requires entries < 0x100
      ensures fresh(names) && fresh(uip_appdata) && names.Length == entries && Ready()
      ensures forall i :: 0 <= i < entries ==> !Pending(names[i])
    {
      names := new NameMap[entries](_ => NameMap(DONE, 0, 0, 0, [], [0, 0, 0, 0]));
      uip_appdata := new byte[DNS_HDR_LEN + 1 + NAME_SIZE + 5](_ => 0);
    }

    ghost predicate Ready()
      reads names
    {
      names.Length < 0x100 && uip_appdata.Length >= DNS_HDR_LEN + 1 + NAME_SIZE + 5 && AllValid(names[..])
    }

    /** The header of the query. */
    method WriteHeader(i: byte)
      requires uip_appdata.Length >= DNS_HDR_LEN
      modifies uip_appdata
      ensures uip_appdata[..DNS_HDR_LEN] == [0, i, 1, 0, 0, 1, 0, 0, 0, 0, 0, 0]
    {
      for k := 0 to DNS_HDR_LEN
        invariant forall j :: 0 <= j < k ==> uip_appdata[j] == 0
      {
        uip_appdata[k] := 0;
      }
      uip_appdata[1] := i;
      uip_appdata[2] := 1;
      uip_appdata[5] := 1;
    }

    /** The encoder: lengths are filled in behind the loop that copies a label. */
    method EncodeName(name: seq<byte>, ghost whole: seq<byte>) returns (query: nat)
      requires |name| < NAME_SIZE && uip_appdata.Length >= DNS_HDR_LEN + 1 + NAME_SIZE + 5
      requires whole == uip_appdata[..DNS_HDR_LEN] + EncodedName(name)
      modifies uip_appdata
      ensures query == DNS_HDR_LEN + |name| + 1 && uip_appdata[..query] == whole
    {
      query := DNS_HDR_LEN;
      var nameptr := 0;
      ghost var rest := EncodedName(name);
      assert name[0..] == name;
      while true
        invariant 0 <= nameptr <= |name| && query == DNS_HDR_LEN + nameptr
        invariant rest == EncodedName(name[nameptr..]) && uip_appdata[..query] + rest == whole
        decreases |name| - nameptr
      {
        ghost var done := uip_appdata[..query];
        ghost var s := nameptr;
        query, nameptr := CopyLabel(name, nameptr, query);
        LabelAdded(name, s, nameptr, done, whole);
        if nameptr == |name| { break; }
        nameptr := nameptr + 1;
        rest := EncodedName(name[nameptr..]);
      }
    }

    /** One label: its bytes first, then the length in front of them. */
    method CopyLabel(name: seq<byte>, s: nat, start: nat) returns (query: nat, nameptr: nat)
      requires s <= |name| < NAME_SIZE && start + |name| - s + 1 <= uip_appdata.Length
      modifies uip_appdata
      ensures s <= nameptr <= |name| && query == start + 1 + nameptr - s
      ensures (forall i :: s <= i < nameptr ==> name[i] != DOT) && (nameptr < |name| ==> name[nameptr] == DOT)
      ensures uip_appdata[..query] == old(uip_appdata[..start]) + ([nameptr - s] + name[s..nameptr])
    {
      var nptr := start;
      query, nameptr := start + 1, s;
      var n: byte := 0;
      ghost var before := uip_appdata[..start];
      while nameptr < |name| && name[nameptr] != DOT
        invariant s <= nameptr <= |name| && query == start + 1 + nameptr - s && n == nameptr - s
        invariant forall i :: s <= i < nameptr ==> name[i] != DOT
        invariant uip_appdata[start + 1..query] == name[s..nameptr]
        invariant uip_appdata[..start] == before
      {
        uip_appdata[query] := name[nameptr];
        assert uip_appdata[start + 1..query] == name[s..nameptr] && uip_appdata[..start] == before;
        assert uip_appdata[start + 1..query + 1] == name[s..nameptr] + [name[nameptr]] == name[s..nameptr + 1];
        query := query + 1;
        n := n + 1;
        nameptr := nameptr + 1;
      }
      uip_appdata[nptr] := n;
      assert uip_appdata[..query] == uip_appdata[..start] + [n] + uip_appdata[start + 1..query];
    }

    /** The message for entry i; the result is the length given to uip_udp_send. */
    method BuildQuery(i: byte, name: seq<byte>) returns (len: byte)
      requires |name| < NAME_SIZE && uip_appdata.Length >= DNS_HDR_LEN + 1 + NAME_SIZE + 5
      modifies uip_appdata
      ensures len <= uip_appdata.Length && Short(Labels(name)) && uip_appdata[..len] == Query(i, name)
    {
      WriteHeader(i);
      ShortLabels(name);
      ghost var front := uip_appdata[..DNS_HDR_LEN] + EncodedName(name);
      var query := EncodeName(name, front);
      var endquery: seq<byte> := [0, 0, 1, 0, 1];
      forall k | 0 <= k < 5 {
        uip_appdata[query + k] := endquery[k];
      }
      len := query + 5;
      assert uip_appdata[..query] == front && uip_appdata[query..len] == endquery;
      assert uip_appdata[..len] == uip_appdata[..query] + uip_appdata[query..len];
    }

    /** The part of check_entries before the query: timer, retries and state of one pending entry. */
    method Poke(i: nat) returns (asks: bool)
      requires Ready() && i < names.Length && Pending(names[i])
      modifies names
      ensures names[..] == old(names[..])[i := Poked(old(names[i]))] && Ready()
      ensures asks == Asks(old(names[i]))
    {
      if names[i].state == ASKING {
        names[i] := names[i].(tmr := Wrap8(names[i].tmr - 1));
        if names[i].tmr == 0 {
          names[i] := names[i].(retries := Inc(names[i].retries));
          if names[i].retries == MAX_RETRIES {
            names[i] := names[i].(state := ERROR);
            return false;
          }
          names[i] := names[i].(tmr := names[i].retries);
        } else {
          return false;
        }
      } else {
        names[i] := names[i].(state := ASKING, tmr := 1, retries := 0);
      }
      return true;
    }

    /** check_entries; `asked` and the bytes in uip_appdata are what is sent, `failed` the entries reported with NULL. */
    method CheckEntries() returns (asked: Option<byte>, len: byte, failed: seq<nat>)
      requires Ready()
      modifies names, uip_appdata
      ensures Ready() && names[..] == Poll(old(names[..]))
      ensures forall i :: 0 <= i < names.Length ==> (i in failed <==> FailsNow(old(names[..]), i))
      ensures forall i: byte :: i < names.Length ==> (asked == Some(i) <==> AskedNow(old(names[..]), i))
      ensures forall j, k :: 0 <= j < k < |failed| ==> failed[j] < failed[k]
      ensures asked == None ==> len == 0
      ensures asked.Some? ==> asked.value < names.Length && len <= uip_appdata.Length
                              && Short(Labels(old(names[..])[asked.value].name))
                              && uip_appdata[..len] == Query(asked.value, old(names[..])[asked.value].name)
    {
      ghost var ns := names[..];
      asked, len, failed := None, 0, [];
      var i := 0;
      while i < names.Length
        invariant 0 <= i <= names.Length && Reached(ns, i) && Ready()
        invariant names[..] == Partly(ns, i)
        invariant forall j :: 0 <= j < |ns| ==> (j in failed <==> j < i && Fails(ns[j]))
        invariant forall j :: 0 <= j < |failed| ==> failed[j] < i
        invariant forall j, k :: 0 <= j < k < |failed| ==> failed[j] < failed[k]
        invariant asked == None && len == 0
      {
        assert names[i] == ns[i];
        if names[i].state == NEW || names[i].state == ASKING {
          var asks := Poke(i);
          if asks {
            len := BuildQuery(i, names[i].name);
            asked := Some(i);
            break;
          }
          // Neither asking nor waiting for its timer: the entry has just failed.
          if names[i].state == ERROR {
            failed := failed + [i];
          }
        }
        assert names[..] == Partly(ns, i + 1);
        i := i + 1;
      }
      assert asked == None ==> Reached(ns, |ns|);
      assert names[..] == Poll(ns);
    }

    /** newdata on the message m; `found` is the entry for which resolv_found is called. */
    method UipNewdata(m: seq<byte>) returns (found: Option<byte>)
      requires Ready()
      modifies names
      ensures Ready() && names[..] == NewData(old(names[..]), m)
      ensures found == if Reports(m) then Addressee(old(names[..]), m) else None
    {
      found := None;
      var i := At(m, 1);
      if i < names.Length && names[i].state == ASKING {
        names[i] := names[i].(state := DONE);
        names[i] := names[i].(err := At(m, 3) % 0x10);
        if names[i].err != 0 {
          names[i] := names[i].(state := ERROR);
          return Some(i);
        }
        var nameptr := ParseNameLoop(m, DNS_HDR_LEN);
        var address := WalkAnswers(m, nameptr + 4, AnswerCount(m));
        if address.Some? {
          names[i] := names[i].(ipaddr := address.value);
          return Some(i);
        }
      }
    }
  }
}
