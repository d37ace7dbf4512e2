/** What an application that reads with psock gets of what the other end handed to psock_send. */
module Delivery {
  import opened Bytes
  import opened Tcp
  import opened Stream
  import opened EndToEnd
  import opened Reader

  // ---- Reading a part of a stream ----

  lemma IndexInPrefix(stream: seq<byte>, whole: seq<byte>, b: byte)
    requires stream <= whole && b in stream
    ensures b in whole && IndexOf(whole, b) == IndexOf(stream, b)
  {
    var n, k := IndexOf(stream, b), IndexOf(whole, b);
    assert whole[n] == b && stream[..n] == whole[..n];
  }

  /** What has arrived of a stream holds the first of its records. */
  lemma {:induction false} RecordsOfPrefix(stream: seq<byte>, whole: seq<byte>, marker: byte)
    requires stream <= whole
    ensures Records(stream, marker) <= Records(whole, marker)
    decreases stream
  {
    if marker in stream {
      IndexInPrefix(stream, whole, marker);
      var k := IndexOf(stream, marker) + 1;
      CutPrefix(stream, whole, k);
      RecordsOfPrefix(stream[k..], whole[k..], marker);
      SameHead(whole[..k], Records(stream[k..], marker), Records(whole[k..], marker));
    }
  }

  lemma CutPrefix(stream: seq<byte>, whole: seq<byte>, k: nat)
    requires stream <= whole && k <= |stream|
    ensures stream[..k] == whole[..k] && stream[k..] <= whole[k..]
  {
  }

  lemma SameHead(r: seq<byte>, rs: seq<seq<byte>>, all: seq<seq<byte>>)
    requires rs <= all
    ensures [r] + rs <= [r] + all
  {
  }

  lemma TruncateOfPrefix(rs: seq<seq<byte>>, all: seq<seq<byte>>, size: nat)
    requires rs <= all
    ensures Truncate(rs, size) <= Truncate(all, size)
  {
  }

  // ---- The data of the callbacks of a run ----

  /** What one end had been shown in each world of a run. */
  function ShownToA(ws: seq<World>): (h: seq<seq<byte>>)
    ensures |h| == |ws| && forall i :: 0 <= i < |ws| ==> h[i] == ws[i].a.shown
  {
    seq(|ws|, i requires 0 <= i < |ws| => ws[i].a.shown)
  }

  function ShownToB(ws: seq<World>): (h: seq<seq<byte>>)
    ensures |h| == |ws| && forall i :: 0 <= i < |ws| ==> h[i] == ws[i].b.shown
  {
    seq(|ws|, i requires 0 <= i < |ws| => ws[i].b.shown)
  }

  ghost predicate Grows(h: seq<seq<byte>>) {
    h != [] && h[0] == [] && forall i :: 0 <= i < |h| - 1 ==> h[i] <= h[i + 1]
  }

  /** What each step added: the data of its callback, or nothing. */
  function Added(h: seq<seq<byte>>): seq<seq<byte>>
    requires Grows(h)
  {
    if |h| == 1 then []
    else
      var n := |h| - 1;
      assert h[n - 1] <= h[n - 1 + 1];
      Added(h[..n]) + [h[n][|h[n - 1]|..]]
  }

  lemma {:induction false} AddedJoins(h: seq<seq<byte>>)
    requires Grows(h)
    ensures Concat(Added(h)) == h[|h| - 1]
    decreases |h|
  {
    if |h| > 1 {
      var n := |h| - 1;
      assert h[n - 1] <= h[n - 1 + 1];
      var last := h[n][|h[n - 1]|..];
      AddedJoins(h[..n]);
      ConcatAppend(Added(h[..n]), [last]);
      assert Concat([last]) == last;
    }
  }

  /** A step adds exactly the data its callback carries under UIP_NEWDATA. */
  lemma StepShows(x: Side, e: Event, x': Side, sent: Option<Segment>)
    requires SideStep(x, e, x', sent)
    ensures x'.shown == x.shown + match e
                                  case Tick(_, r) => Shown(Timer(x.m, x.conn, r))
                                  case Deliver(s, _, r) => Shown(Input(x.m, x.conn, s, r))
                                  case Accept(_) => []
  {
  }

  lemma StepGrows(w: World, w': World)
    requires WorldStep(w, w')
    ensures w.a.shown <= w'.a.shown && w.b.shown <= w'.b.shown
  {
    if e: Event, sent: Option<Segment> :| MayArrive(w.fromB, e) && SideStep(w.a, e, w'.a, sent)
                                          && w' == w.(a := w'.a, fromA := Record(w.fromA, sent)) {
      StepShows(w.a, e, w'.a, sent);
    } else {
      var e: Event, sent: Option<Segment> :| MayArrive(w.fromA, e) && SideStep(w.b, e, w'.b, sent)
                                             && w' == w.(b := w'.b, fromB := Record(w.fromB, sent));
      StepShows(w.b, e, w'.b, sent);
    }
  }

  lemma RunGrows(ws: seq<World>)
    requires IsRun(ws)
    ensures Grows(ShownToA(ws)) && Grows(ShownToB(ws))
  {
    forall i | 0 <= i < |ws| - 1
      ensures ws[i].a.shown <= ws[i + 1].a.shown && ws[i].b.shown <= ws[i + 1].b.shown
    {
      StepGrows(ws[i], ws[i + 1]);
    }
  }

  // ---- From psock_send to psock_readto and psock_readbuf_len ----

  /** What reads make of segments that arrived, against the stream they were cut from. */
  ghost predicate ReadInOrder(segs: seq<seq<byte>>, stream: seq<byte>, size: nat, marker: byte) {
    FeedSegments([], size, marker, segs).0 <= Truncate(Records(stream, marker), size)
  }

  ghost predicate ReadInFull(segs: seq<seq<byte>>, stream: seq<byte>, size: nat, marker: byte) {
    FeedSegments([], size, marker, segs).0 == Truncate(Records(stream, marker), size)
  }

  lemma PrefixIsReadInOrder(segs: seq<seq<byte>>, stream: seq<byte>, size: nat, marker: byte)
    requires Concat(segs) <= stream
    ensures ReadInOrder(segs, stream, size, marker)
    ensures Concat(segs) == stream ==> ReadInFull(segs, stream, size, marker)
  {
    ReadToReturnsRecords(size, marker, segs);
    RecordsOfPrefix(Concat(segs), stream, marker);
    TruncateOfPrefix(Records(Concat(segs), marker), Records(stream, marker), size);
  }

  /**
    An application that reads all it is shown with psock_readto gets, in order and without a gap, the records of
    what the other one handed to psock_send, cut to its buffer; and all of them once the other one has finished.
   */
  lemma RecordsGetThrough(ws: seq<World>, size: nat, marker: byte)
    requires IsRun(ws)
    ensures Grows(ShownToA(ws)) && Grows(ShownToB(ws))
    ensures var w := ws[|ws| - 1];
      && ReadInOrder(Added(ShownToB(ws)), w.a.handed, size, marker)
      && ReadInOrder(Added(ShownToA(ws)), w.b.handed, size, marker)
      && (Finished(w.a) && !w.b.quit ==> ReadInFull(Added(ShownToB(ws)), w.a.handed, size, marker))
      && (Finished(w.b) && !w.a.quit ==> ReadInFull(Added(ShownToA(ws)), w.b.handed, size, marker))
  {
    var w := ws[|ws| - 1];
    RunGrows(ws);
    AddedJoins(ShownToA(ws));
    AddedJoins(ShownToB(ws));
    ShownIsPrefixOfSent(ws, |ws| - 1);
    FinishedMeansAllShown(ws, |ws| - 1);
    PrefixIsReadInOrder(Added(ShownToB(ws)), w.a.handed, size, marker);
    PrefixIsReadInOrder(Added(ShownToA(ws)), w.b.handed, size, marker);
  }

  /** The pieces psock_readbuf_len returns, and what it still holds, are the beginning of a stream. */
  ghost predicate PiecesOf(segs: seq<seq<byte>>, stream: seq<byte>, size: nat, len: nat)
    requires 0 < size && 0 < len
  {
    var (pieces, rest) := GatherSegments([], size, len, segs);
    Concat(pieces) + rest <= stream && forall p :: p in pieces ==> Min(len, size) <= |p| <= size
  }

  lemma PiecesOfPrefix(segs: seq<seq<byte>>, stream: seq<byte>, size: nat, len: nat)
    requires Concat(segs) <= stream && 0 < size && 0 < len
    ensures PiecesOf(segs, stream, size, len)
  {
    ReadLenKeepsStream([], size, len, segs);
    EmptyIsNeutral(Concat(segs));
  }

  /** With psock_readbuf_len it gets the same stream in pieces of the size it asked for. */
  lemma PiecesGetThrough(ws: seq<World>, size: nat, len: nat)
    requires IsRun(ws) && 0 < size && 0 < len
    ensures Grows(ShownToA(ws)) && Grows(ShownToB(ws))
    ensures var w := ws[|ws| - 1];
      && PiecesOf(Added(ShownToB(ws)), w.a.handed, size, len)
      && PiecesOf(Added(ShownToA(ws)), w.b.handed, size, len)
  {
    RunGrows(ws);
    AddedJoins(ShownToA(ws));
    AddedJoins(ShownToB(ws));
    ShownIsPrefixOfSent(ws, |ws| - 1);
    PiecesOfPrefix(Added(ShownToA(ws)), ws[|ws| - 1].b.handed, size, len);
    PiecesOfPrefix(Added(ShownToB(ws)), ws[|ws| - 1].a.handed, size, len);
  }
}
