/** What psock_readto and psock_readbuf_len hand to the application, as functions of the bytes that arrived. */
module Reader {
  import opened Bytes

  /** One byte into a read buffer of `size` bytes: kept while there is room. */
  function Store(got: seq<byte>, size: nat, b: byte): seq<byte> {
    if |got| < size then got + [b] else got
  }

  /** A completed read in front of what later reads return. */
  function Prepend(got: seq<byte>, later: (seq<seq<byte>>, seq<byte>)): (seq<seq<byte>>, seq<byte>) {
    ([got] + later.0, later.1)
  }

  /** Feeding bytes to repeated psock_readto calls: the records completed and what the open one holds. */
  function Feed(got: seq<byte>, size: nat, marker: byte, data: seq<byte>): (seq<seq<byte>>, seq<byte>)
    decreases data
  {
    if data == [] then ([], got)
    else
      var got' := Store(got, size, data[0]);
      if data[0] == marker then
        Prepend(got', Feed([], size, marker, data[1..]))
      else Feed(got', size, marker, data[1..])
  }

  /** Bytes cut into segments may be fed one segment after the other. */
  lemma {:induction false} FeedConcat(got: seq<byte>, size: nat, marker: byte, a: seq<byte>, b: seq<byte>)
    ensures
      var (ra, ga) := Feed(got, size, marker, a);
      var (rb, gb) := Feed(ga, size, marker, b);
      Feed(got, size, marker, a + b) == (ra + rb, gb)
    decreases a
  {
    if a == [] {
      assert a + b == b;
      var (rb, gb) := Feed(got, size, marker, b);
      assert [] + rb == rb;
    } else {
      assert (a + b)[1..] == a[1..] + b;
      var got' := Store(got, size, a[0]);
      if a[0] == marker {
        FeedConcat([], size, marker, a[1..], b);
        var (r1, g1) := Feed([], size, marker, a[1..]);
        var (r2, g2) := Feed(g1, size, marker, b);
        assert [got'] + (r1 + r2) == ([got'] + r1) + r2;
      } else {
        FeedConcat(got', size, marker, a[1..], b);
      }
    }
  }

  function FeedSegments(got: seq<byte>, size: nat, marker: byte, segs: seq<seq<byte>>): (seq<seq<byte>>, seq<byte>)
    decreases segs
  {
    if segs == [] then ([], got)
    else
      var (r, g) := Feed(got, size, marker, segs[0]);
      var (rs, g') := FeedSegments(g, size, marker, segs[1..]);
      (r + rs, g')
  }

  function Concat(segs: seq<seq<byte>>): seq<byte> {
    if segs == [] then [] else segs[0] + Concat(segs[1..])
  }

  lemma {:induction false} SegmentationIndependent(got: seq<byte>, size: nat, marker: byte, segs: seq<seq<byte>>)
    ensures FeedSegments(got, size, marker, segs) == Feed(got, size, marker, Concat(segs))
    decreases segs
  {
    if segs != [] {
      FeedConcat(got, size, marker, segs[0], Concat(segs[1..]));
      SegmentationIndependent(Feed(got, size, marker, segs[0]).1, size, marker, segs[1..]);
    }
  }

  // ---- Records of a stream ----

  /** The pieces of a stream that end in the marker, in order. */
  function Records(stream: seq<byte>, marker: byte): seq<seq<byte>>
    decreases stream
  {
    if marker !in stream then []
    else
      var n := IndexOf(stream, marker);
      [stream[..n + 1]] + Records(stream[n + 1..], marker)
  }

  function IndexOf(stream: seq<byte>, b: byte): (n: nat)
    requires b in stream
    ensures n < |stream| && stream[n] == b && b !in stream[..n]
  {
    if stream[0] == b then 0 else
      assert stream == [stream[0]] + stream[1..];
      var n := 1 + IndexOf(stream[1..], b);
      assert stream[..n] == [stream[0]] + stream[1..][..n - 1];
      n
  }

  function Truncate(records: seq<seq<byte>>, size: nat): seq<seq<byte>> {
    seq(|records|, i requires 0 <= i < |records| => Take(records[i], size))
  }

  lemma {:induction false} FeedWithoutMarker(got: seq<byte>, size: nat, marker: byte, data: seq<byte>)
    requires marker !in data && |got| <= size
    ensures Feed(got, size, marker, data) == ([], Take(got + data, size))
    decreases data
  {
    if data == [] {
      assert got + data == got;
    } else {
      assert data[0] in data;
      FeedWithoutMarker(Store(got, size, data[0]), size, marker, data[1..]);
      assert got + data == (got + [data[0]]) + data[1..];
      if |got| == size { assert Take(got + data[1..], size) == got == Take(got + data, size); }
    }
  }

  lemma {:induction false} FeedOneRecord(got: seq<byte>, size: nat, marker: byte, head: seq<byte>, tail: seq<byte>)
    requires marker !in head && |got| <= size
    ensures Feed(got, size, marker, head + [marker] + tail)
            == Prepend(Take(got + head + [marker], size), Feed([], size, marker, tail))
  {
    var data := [marker] + tail;
    assert head + [marker] + tail == head + data;
    FeedConcat(got, size, marker, head, data);
    FeedWithoutMarker(got, size, marker, head);
    var g := Take(got + head, size);
    assert data[1..] == tail && data[0] == marker;
    assert Store(g, size, marker) == Take(got + head + [marker], size);
    assert [] + Feed(g, size, marker, data).0 == Feed(g, size, marker, data).0;
  }

  /**
    The k-th psock_readto returns the k-th record of the byte stream, cut to the size of the buffer, however
    the stream was cut into segments.
   */
  lemma {:induction false} ReadToReturnsRecords(size: nat, marker: byte, segs: seq<seq<byte>>)
    ensures FeedSegments([], size, marker, segs).0 == Truncate(Records(Concat(segs), marker), size)
  {
    SegmentationIndependent([], size, marker, segs);
    FeedIsRecords(size, marker, Concat(segs));
  }

  lemma TruncateCons(r: seq<byte>, rs: seq<seq<byte>>, size: nat)
    ensures Truncate([r] + rs, size) == [Take(r, size)] + Truncate(rs, size)
  {
  }

  lemma {:induction false} FeedIsRecords(size: nat, marker: byte, stream: seq<byte>)
    ensures Feed([], size, marker, stream).0 == Truncate(Records(stream, marker), size)
    decreases stream
  {
    if marker !in stream {
      FeedWithoutMarker([], size, marker, stream);
    } else {
      var n := IndexOf(stream, marker);
      var head, tail := stream[..n], stream[n + 1..];
      assert stream == head + [marker] + tail;
      assert [] + head + [marker] == stream[..n + 1];
      FeedOneRecord([], size, marker, head, tail);
      FeedIsRecords(size, marker, tail);
      TruncateCons(stream[..n + 1], Records(tail, marker), size);
    }
  }

  // ---- psock_readbuf_len ----

  /** The bytes a psock_readbuf_len(len) waits for: even without any asked for it does not return empty. */
  function AtLeastOne(len: nat): nat { if len == 0 then 1 else len }

  /** Feeding bytes to repeated psock_readbuf_len calls. */
  function Gather(got: seq<byte>, size: nat, len: nat, data: seq<byte>): (seq<seq<byte>>, seq<byte>)
    requires |got| < size
    decreases data
  {
    if data == [] then ([], got)
    else
      var n := Min(|data|, size - |got|);
      var got' := got + data[..n];
      if |got'| < size && |got'| < len then ([], got')
      else
        Prepend(got', Gather([], size, len, data[n..]))
  }

  /** One buf_bufdata and the test after it. */
  lemma GatherOnce(got: seq<byte>, size: nat, len: nat, data: seq<byte>)
    requires |got| < size && |got| < len
    ensures
      var n := Min(|data|, size - |got|);
      var got' := got + data[..n];
      Gather(got, size, len, data) ==
        if |got'| < size && |got'| < len then ([], got') else Prepend(got', Gather([], size, len, data[n..]))
  {
    if data == [] { EmptyIsNeutral(got); }
  }

  lemma CutAt(got: seq<byte>, data: seq<byte>, n: nat)
    requires n <= |data|
    ensures got + data == (got + data[..n]) + data[n..]
  {
  }

  /** Nothing is lost or reordered. */
  lemma {:induction false} GatherKeepsBytes(got: seq<byte>, size: nat, len: nat, data: seq<byte>)
    requires |got| < size
    ensures var (chunks, rest) := Gather(got, size, len, data);
      Concat(chunks) + rest == got + data
    decreases data
  {
    if data == [] {
    } else {
      var n := Min(|data|, size - |got|);
      var got' := got + data[..n];
      CutAt(got, data, n);
      if |got'| < size && |got'| < len {
        assert data[..n] == data;
      } else {
        var tail := data[n..];
        GatherKeepsBytes([], size, len, tail);
        var (chunks, rest) := Gather([], size, len, tail);
        assert [] + tail == tail;
        ConcatCons(got', chunks);
        Associate(got', Concat(chunks), rest);
      }
    }
  }

  /** Every chunk but the open one has at least min(len, size) bytes. */
  lemma {:induction false} GatherSizes(got: seq<byte>, size: nat, len: nat, data: seq<byte>)
    requires |got| < size && |got| < len
    ensures var (chunks, rest) := Gather(got, size, len, data);
      |rest| < size && |rest| < len && forall c :: c in chunks ==> Min(len, size) <= |c| <= size
    decreases data
  {
    if data != [] {
      var n := Min(|data|, size - |got|);
      if !(|got| + n < size && |got| + n < len) { GatherSizes([], size, len, data[n..]); }
    }
  }

  function GatherSegments(got: seq<byte>, size: nat, len: nat, segs: seq<seq<byte>>): (seq<seq<byte>>, seq<byte>)
    requires |got| < size && |got| < len
    decreases segs
  {
    if segs == [] then ([], got)
    else
      GatherSizes(got, size, len, segs[0]);
      var (c, g) := Gather(got, size, len, segs[0]);
      var (cs, g') := GatherSegments(g, size, len, segs[1..]);
      (c + cs, g')
  }

  lemma ConcatCons(s: seq<byte>, segs: seq<seq<byte>>)
    ensures Concat([s] + segs) == s + Concat(segs)
  {
  }

  lemma EmptyIsNeutral<T>(a: seq<T>)
    ensures a + [] == a && [] + a == a
  {
  }

  lemma ConcatAppend(a: seq<seq<byte>>, b: seq<seq<byte>>)
    ensures Concat(a + b) == Concat(a) + Concat(b)
  {
    if a == [] {
      assert a + b == b;
    } else {
      assert (a + b)[1..] == a[1..] + b;
      ConcatAppend(a[1..], b);
    }
  }

  lemma {:induction false} ReadLenKeepsStream(got: seq<byte>, size: nat, len: nat, segs: seq<seq<byte>>)
    requires |got| < size && |got| < len
    ensures
      var (chunks, rest) := GatherSegments(got, size, len, segs);
      && Concat(chunks) + rest == got + Concat(segs)
      && (forall c :: c in chunks ==> Min(len, size) <= |c| <= size)
    decreases segs
  {
    if segs != [] {
      GatherKeepsBytes(got, size, len, segs[0]);
      GatherSizes(got, size, len, segs[0]);
      var (c, g) := Gather(got, size, len, segs[0]);
      ReadLenKeepsStream(g, size, len, segs[1..]);
      var (cs, g') := GatherSegments(g, size, len, segs[1..]);
      ConcatAppend(c, cs);
      Associate(Concat(c), Concat(cs), g');
      Associate(Concat(c), g, Concat(segs[1..]));
      Associate(got, segs[0], Concat(segs[1..]));
    }
  }
}
