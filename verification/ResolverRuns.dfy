/** What becomes of queued names over whole runs of the resolver. */
module ResolverRuns {
  import opened Bytes
  import opened Dns
  import opened Resolver

  /** The waiting times still ahead once the given number of retries has been made. */
  function Tail(retries: nat): nat
    decreases 7 - retries
  {
    if retries >= 7 then 0 else retries + 1 + Tail(retries + 1)
  }

  /** The calls that look at the entry until it gives up. */
  function CallsLeft(e: NameMap): nat {
    match e.state
    case NEW => 30
    case ASKING => e.tmr + Tail(e.retries)
    case UNUSED | DONE | ERROR => 0
  }

  function QueriesLeft(e: NameMap): nat {
    match e.state
    case NEW => 8
    case ASKING => if e.retries < 7 then 7 - e.retries else 0
    case UNUSED | DONE | ERROR => 0
  }

  function CallbacksLeft(e: NameMap): nat { if Pending(e) then 1 else 0 }

  function One(b: bool): nat { if b then 1 else 0 }

  /** Each look at a pending entry uses up exactly one of the calls it has left. */
  lemma PokedUsesOne(e: NameMap)
    requires Valid(e)
    ensures Valid(Poked(e)) && CallsLeft(e) <= 30 && (Pending(e) ==> CallsLeft(e) > 0)
    ensures CallsLeft(Poked(e)) == CallsLeft(e) - One(Pending(e))
    ensures QueriesLeft(Poked(e)) + One(Asks(e)) == QueriesLeft(e)
    ensures CallbacksLeft(Poked(e)) + One(Fails(e)) == CallbacksLeft(e)
    ensures Poked(e).state == ERROR || Pending(Poked(e)) || Poked(e) == e
  {
    TailValues();
  }

  lemma TailValues()
    ensures Tail(7) == 0 && Tail(6) == 7 && Tail(5) == 13 && Tail(4) == 18
    ensures Tail(3) == 22 && Tail(2) == 25 && Tail(1) == 27 && Tail(0) == 28
  {
  }

  function Sum(ns: seq<NameMap>): nat {
    if ns == [] then 0 else Sum(ns[..|ns| - 1]) + CallsLeft(ns[|ns| - 1])
  }

  lemma {:induction false} SumDrops(ns: seq<NameMap>, rs: seq<NameMap>)
    requires |rs| == |ns| && forall i :: 0 <= i < |ns| ==> CallsLeft(rs[i]) <= CallsLeft(ns[i])
    ensures Sum(rs) <= Sum(ns)
    ensures (exists i :: 0 <= i < |ns| && CallsLeft(rs[i]) < CallsLeft(ns[i])) ==> Sum(rs) < Sum(ns)
    decreases |ns|
  {
    if ns != [] {
      var n := |ns| - 1;
      SumDrops(ns[..n], rs[..n]);
      if i :| 0 <= i < |ns| && CallsLeft(rs[i]) < CallsLeft(ns[i]) {
        if i < n { assert CallsLeft(rs[..n][i]) < CallsLeft(ns[..n][i]); }
      }
    }
  }

  lemma {:induction false} SumBounds(ns: seq<NameMap>)
    requires AllValid(ns)
    ensures Sum(ns) <= 30 * |ns|
    ensures Sum(ns) == 0 ==> forall i :: 0 <= i < |ns| ==> !Pending(ns[i])
    decreases |ns|
  {
    if ns != [] {
      var n := |ns| - 1;
      SumBounds(ns[..n]);
      PokedUsesOne(ns[n]);
      assert forall i :: 0 <= i < n ==> ns[i] == ns[..n][i];
    }
  }

  // ---- One call ----

  datatype Event = Call | Reply(m: seq<byte>)

  ghost function Step(ns: seq<NameMap>, e: Event): (r: seq<NameMap>)
    requires AllValid(ns)
    ensures |r| == |ns|
  {
    match e
    case Call => Poll(ns)
    case Reply(m) => NewData(ns, m)
  }

  ghost predicate AsksIn(ns: seq<NameMap>, e: Event, i: nat)
    requires i < |ns|
  {
    e.Call? && AskedNow(ns, i)
  }

  /** resolv_found is called for entry i. */
  ghost predicate CallsBack(ns: seq<NameMap>, e: Event, i: nat)
    requires i < |ns|
  {
    match e
    case Call => FailsNow(ns, i)
    case Reply(m) => Addressee(ns, m) == Some(i) && Reports(m)
  }

  ghost predicate IsAnswered(ns: seq<NameMap>, e: Event, i: nat) {
    e.Reply? && Addressee(ns, e.m) == Some(i)
  }

  /** Calls are used up, and queries and callbacks drawn from a fixed stock, whatever arrives. */
  lemma StepAccounts(ns: seq<NameMap>, e: Event, i: nat)
    requires AllValid(ns) && i < |ns|
    ensures
      var r := Step(ns, e)[i];
      && Valid(r) && CallsLeft(r) <= CallsLeft(ns[i])
      && QueriesLeft(r) + One(AsksIn(ns, e, i)) <= QueriesLeft(ns[i])
      && CallbacksLeft(r) + One(CallsBack(ns, e, i)) <= CallbacksLeft(ns[i])
      && (!IsAnswered(ns, e, i) ==>
            && QueriesLeft(r) + One(AsksIn(ns, e, i)) == QueriesLeft(ns[i])
            && CallbacksLeft(r) + One(CallsBack(ns, e, i)) == CallbacksLeft(ns[i])
            && (r.state == ERROR || Pending(r) || r == ns[i]))
  {
    PokedUsesOne(ns[i]);
    if e.Call? {
      assert Poll(ns)[i] == if Reached(ns, i) then Poked(ns[i]) else ns[i];
    } else if Addressee(ns, e.m) == Some(i) {
      assert NewData(ns, e.m)[i] == Answered(ns[i], e.m);
    } else {
      assert NewData(ns, e.m)[i] == ns[i];
    }
  }

  lemma StepKeepsValid(ns: seq<NameMap>, e: Event)
    requires AllValid(ns)
    ensures AllValid(Step(ns, e)) && Sum(Step(ns, e)) <= Sum(ns)
  {
    forall i | 0 <= i < |ns| ensures Valid(Step(ns, e)[i]) && CallsLeft(Step(ns, e)[i]) <= CallsLeft(ns[i]) {
      StepAccounts(ns, e, i);
    }
    SumDrops(ns, Step(ns, e));
  }

  lemma {:induction false} FirstPending(ns: seq<NameMap>) returns (i: nat)
    requires exists j :: 0 <= j < |ns| && Pending(ns[j])
    ensures i < |ns| && Pending(ns[i]) && forall j :: 0 <= j < i ==> !Pending(ns[j])
  {
    i := 0;
    while !Pending(ns[i])
      invariant i < |ns| && forall j :: 0 <= j < i ==> !Pending(ns[j])
      decreases |ns| - i
    {
      i := i + 1;
    }
  }

  /** A call makes progress while anything is pending: the first pending entry is always reached. */
  lemma CallDrops(ns: seq<NameMap>)
    requires AllValid(ns)
    ensures Sum(Poll(ns)) < Sum(ns) || forall i :: 0 <= i < |ns| ==> !Pending(ns[i])
  {
    if exists j :: 0 <= j < |ns| && Pending(ns[j]) {
      var i := FirstPending(ns);
      forall j | 0 <= j < |ns| ensures CallsLeft(Step(ns, Call)[j]) <= CallsLeft(ns[j]) {
        StepAccounts(ns, Call, j);
      }
      assert Reached(ns, i);
      PokedUsesOne(ns[i]);
      assert CallsLeft(Poll(ns)[i]) < CallsLeft(ns[i]);
      SumDrops(ns, Poll(ns));
    }
  }

  // ---- Runs ----

  ghost function Run(ns: seq<NameMap>, es: seq<Event>): (r: seq<NameMap>)
    requires AllValid(ns)
    ensures |r| == |ns| && AllValid(r)
  {
    if es == [] then ns
    else
      var before := Run(ns, es[..|es| - 1]);
      StepKeepsValid(before, es[|es| - 1]);
      Step(before, es[|es| - 1])
  }

  ghost function Asked(ns: seq<NameMap>, es: seq<Event>, i: nat): nat
    requires AllValid(ns) && i < |ns|
  {
    if es == [] then 0
    else Asked(ns, es[..|es| - 1], i) + One(AsksIn(Run(ns, es[..|es| - 1]), es[|es| - 1], i))
  }

  ghost function CalledBack(ns: seq<NameMap>, es: seq<Event>, i: nat): nat
    requires AllValid(ns) && i < |ns|
  {
    if es == [] then 0
    else CalledBack(ns, es[..|es| - 1], i) + One(CallsBack(Run(ns, es[..|es| - 1]), es[|es| - 1], i))
  }

  ghost predicate NeverAnswered(ns: seq<NameMap>, es: seq<Event>, i: nat)
    requires AllValid(ns)
  {
    es != [] ==>
      NeverAnswered(ns, es[..|es| - 1], i) && !IsAnswered(Run(ns, es[..|es| - 1]), es[|es| - 1], i)
  }

  function Calls(es: seq<Event>): nat {
    if es == [] then 0 else Calls(es[..|es| - 1]) + One(es[|es| - 1].Call?)
  }

  /** At most eight queries and at most one callback a name, in every run. */
  lemma {:induction false} RunAccounts(ns: seq<NameMap>, es: seq<Event>, i: nat)
    requires AllValid(ns) && i < |ns|
    ensures QueriesLeft(Run(ns, es)[i]) + Asked(ns, es, i) <= QueriesLeft(ns[i]) <= 8
    ensures CallbacksLeft(Run(ns, es)[i]) + CalledBack(ns, es, i) <= CallbacksLeft(ns[i]) <= 1
  {
    if es != [] {
      var n := |es| - 1;
      RunAccounts(ns, es[..n], i);
      StepAccounts(Run(ns, es[..n]), es[n], i);
    }
  }

  lemma {:induction false} UnansweredAccounts(ns: seq<NameMap>, es: seq<Event>, i: nat)
    requires AllValid(ns) && i < |ns| && NeverAnswered(ns, es, i)
    ensures QueriesLeft(Run(ns, es)[i]) + Asked(ns, es, i) == QueriesLeft(ns[i])
    ensures CallbacksLeft(Run(ns, es)[i]) + CalledBack(ns, es, i) == CallbacksLeft(ns[i])
    ensures Pending(ns[i]) ==> Run(ns, es)[i].state == ERROR || Pending(Run(ns, es)[i])
  {
    if es != [] {
      var n := |es| - 1;
      UnansweredAccounts(ns, es[..n], i);
      StepAccounts(Run(ns, es[..n]), es[n], i);
    }
  }

  lemma {:induction false} CallsRunDown(ns: seq<NameMap>, es: seq<Event>)
    requires AllValid(ns)
    ensures Sum(Run(ns, es)) + Calls(es) <= Sum(ns) || forall i :: 0 <= i < |ns| ==> !Pending(Run(ns, es)[i])
  {
    if es != [] {
      var n := |es| - 1;
      var before := Run(ns, es[..n]);
      CallsRunDown(ns, es[..n]);
      StepKeepsValid(before, es[n]);
      if es[n].Call? { CallDrops(before); }
      if forall i :: 0 <= i < |ns| ==> !Pending(before[i]) { IdleStaysIdle(before, es[n]); }
    }
  }

  lemma IdleStaysIdle(ns: seq<NameMap>, e: Event)
    requires AllValid(ns) && forall i :: 0 <= i < |ns| ==> !Pending(ns[i])
    ensures forall i :: 0 <= i < |ns| ==> !Pending(Step(ns, e)[i])
  {
  }

  /**
    After 30 calls of check_entries for each entry of the table, whatever replies came in between, nothing is
    pending; a queued name that nobody answered is in error, asked for exactly 8 times and reported exactly once.
   */
  lemma EveryNameIsSettled(ns: seq<NameMap>, es: seq<Event>, i: nat)
    requires AllValid(ns) && i < |ns| && Calls(es) >= 30 * |ns|
    ensures !Pending(Run(ns, es)[i])
    ensures ns[i].state == NEW && NeverAnswered(ns, es, i) ==>
      Run(ns, es)[i].state == ERROR && Asked(ns, es, i) == 8 && CalledBack(ns, es, i) == 1
  {
    CallsRunDown(ns, es);
    SumBounds(ns);
    SumBounds(Run(ns, es));
    if NeverAnswered(ns, es, i) { UnansweredAccounts(ns, es, i); }
  }

  // ---- Replies ----

  /** A reply for a waiting name gives it the first address of the message, and reports it. */
  lemma ReplyIsStored(ns: seq<NameMap>, id: byte, flags1: byte, flags2: byte, counts: seq<byte>, question: seq<seq<byte>>,
                      kind: seq<byte>, rs: seq<Record>, rest: seq<byte>, m: seq<byte>)
    requires |counts| == 4 && |kind| == 4 && |rs| < 0x100 && question != [] && Plain(question) && AllWellFormed(rs)
    requires m == Response(id, flags1, flags2, counts, question, kind, rs, rest)
    requires AllValid(ns) && id < |ns| && ns[id].state == ASKING && flags2 % 0x10 == 0
    ensures
      var r, a := NewData(ns, m)[id], FirstAddress(rs);
      && r.state == DONE && r.ipaddr == (if a.Some? then a.value else ns[id].ipaddr)
      && (CallsBack(ns, Reply(m), id) <==> a.Some?)
  {
    SmallResponse(id, flags1, flags2, counts, question, kind, rs, rest, m);
    AnswerIsStored(ns, m, id, FirstAddress(rs));
  }

  lemma SmallResponse(id: byte, flags1: byte, flags2: byte, counts: seq<byte>, question: seq<seq<byte>>,
                      kind: seq<byte>, rs: seq<Record>, rest: seq<byte>, m: seq<byte>)
    requires |counts| == 4 && |kind| == 4 && |rs| < 0x100 && question != [] && Plain(question) && AllWellFormed(rs)
    requires m == Response(id, flags1, flags2, counts, question, kind, rs, rest)
    ensures Packet.At(m, 1) == id && ErrorOf(m) == flags2 % 0x10 && AddressIn(m) == FirstAddress(rs)
  {
    ResponseIsUnderstood(id, flags1, flags2, counts, question, kind, rs, rest, m);
    AllLookedAt(rs);
    LowByteOfId(m, id);
  }

  lemma AllLookedAt(rs: seq<Record>)
    requires |rs| < 0x100
    ensures LookedAt(rs) == rs
  {
  }

  lemma AnswerIsStored(ns: seq<NameMap>, m: seq<byte>, id: byte, a: Option<seq<byte>>)
    requires id < |ns| && ns[id].state == ASKING && Packet.At(m, 1) == id && ErrorOf(m) == 0 && AddressIn(m) == a
    ensures
      var r := NewData(ns, m)[id];
      && r.state == DONE && r.ipaddr == (if a.Some? then a.value else ns[id].ipaddr)
      && (CallsBack(ns, Reply(m), id) <==> a.Some?)
  {
  }

  /**
    What a message changes and reports: nothing, unless the low byte of its identification is the number of a waiting
    entry; of that entry, the error code of the message, or else the first address in it, if there is one.
   */
  lemma MessageMeans(ns: seq<NameMap>, m: seq<byte>)
    ensures
      var r, i, code := NewData(ns, m), Packet.At(m, 1), Packet.At(m, 3) % 0x10;
      && (forall j :: 0 <= j < |ns| && (j != i || ns[j].state != ASKING) ==> r[j] == ns[j] && !CallsBack(ns, Reply(m), j))
      && (i < |ns| && ns[i].state == ASKING ==>
            if code != 0 then r[i] == ns[i].(state := ERROR, err := code) && CallsBack(ns, Reply(m), i)
            else if AddressIn(m).Some? then
              r[i] == ns[i].(state := DONE, err := 0, ipaddr := AddressIn(m).value) && CallsBack(ns, Reply(m), i)
            else r[i] == ns[i].(state := DONE, err := 0) && !CallsBack(ns, Reply(m), i))
  {
  }

  /** A call of check_entries never touches a name, an address or an error code. */
  lemma CallKeepsData(ns: seq<NameMap>, i: nat)
    requires AllValid(ns) && i < |ns|
    ensures Poll(ns)[i].name == ns[i].name && Poll(ns)[i].ipaddr == ns[i].ipaddr && Poll(ns)[i].err == ns[i].err
  {
  }

  lemma LowByteOfId(m: seq<byte>, id: byte)
    requires IdOf(m) == id
    ensures Packet.At(m, 1) == id
  {
  }
}
