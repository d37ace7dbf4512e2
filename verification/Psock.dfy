/** struct psock and the protothreads of psock.cpp; a resume point is a Boolean field. */
module ProtoSocket {
  import opened Bytes
  import opened Tcp
  import opened Sender
  import opened Reader

  datatype State = NONE | ACKED | READ | BLOCKED_NEWDATA | DATA_SENT

  /** A length stored in a 16-bit field. */
  function Counted(n: nat): (r: u16)
    ensures r <= n && (n < 0x1_0000 ==> r == n)
  {
    n % 0x1_0000
  }

  class Psock {
    var state: State
    // Sending: the caller's buffer, sendptr as an offset into it, sendlen; whether psock_send is waiting.
    var sendbuf: seq<byte>
    var sendptr: nat
    var sendlen: u16
    var inSend: bool
    // Reading: uip_appdata, readptr as an offset into it, readlen; whether a read is waiting.
    var appdata: seq<byte>
    var readptr: nat
    var readlen: nat
    var inRead: bool
    // The input buffer: bufptr[..bufsize - left] has been filled.
    const bufptr: array<byte>
    var left: nat

    /** psock_init. */
    constructor (buffer: array<byte>)
      requires buffer.Length > 0
      ensures bufptr == buffer && Valid() && Thread() == Idle && Got() == [] && !inRead && readlen == 0
      ensures state == NONE
    {
      state := NONE;
      sendbuf, sendptr, sendlen, inSend := [], 0, 0, false;
      appdata, readptr, readlen, inRead := [], 0, 0, false;
      bufptr, left := buffer, buffer.Length;
    }

    ghost predicate Valid()
      reads this
    {
      && left <= bufptr.Length && 0 < bufptr.Length
      && readptr + readlen <= |appdata|
      && sendptr + sendlen <= |sendbuf|
      && (inSend ==> state == DATA_SENT && sendlen > 0)
    }

    /** Where psock_send stands. */
    ghost function Thread(): Thread
      requires Valid()
      reads this
    {
      if inSend then Sending(sendbuf[sendptr..sendptr + sendlen]) else Idle
    }

    /** What the current read has put into the caller's buffer. */
    function Got(): (g: seq<byte>)
      requires left <= bufptr.Length
      reads this`left, bufptr
      ensures |g| == bufptr.Length - left
    {
      bufptr[..bufptr.Length - left]
    }

    /** The part of uip_appdata not yet read. */
    ghost function Pending(): seq<byte>
      requires readptr + readlen <= |appdata|
      reads this`appdata, this`readptr, this`readlen
    {
      appdata[readptr..readptr + readlen]
    }

    // ---- Sending ----

    /** data_is_sent_and_acked; `out` is what was given to uip_send, if anything was. */
    method DataIsSentAndAcked(cb: Callback) returns (done: bool, out: seq<byte>)
      requires sendptr + sendlen <= |sendbuf|
      modifies this`state, this`sendptr, this`sendlen
      ensures sendptr + sendlen == old(sendptr + sendlen)
      ensures
        var rest := old(sendbuf[sendptr..sendptr + sendlen]);
        var n := ChunkLen(rest, cb.mss);
        if old(state) != DATA_SENT || cb.rexmit then
          !done && out == rest[..n] && state == DATA_SENT && sendptr == old(sendptr)
        else if cb.ackdata then
          done && out == [] && state == ACKED && sendptr == old(sendptr) + n
        else !done && out == [] && state == DATA_SENT && sendptr == old(sendptr)
    {
      out := [];
      if state != DATA_SENT || cb.rexmit {
        if sendlen > cb.mss {
          out := sendbuf[sendptr..sendptr + cb.mss];
        } else {
          out := sendbuf[sendptr..sendptr + sendlen];
        }
        state := DATA_SENT;
        return false, out;
      } else if state == DATA_SENT && cb.ackdata {
        if sendlen > cb.mss {
          sendlen := sendlen - cb.mss;
          sendptr := sendptr + cb.mss;
        } else {
          sendptr := sendptr + sendlen;
          sendlen := 0;
        }
        state := ACKED;
        return true, out;
      }
      return false, out;
    }

    /** psock_send: called afresh with a buffer, of which it sends as much as sendlen can count, or resumed at its wait. */
    method Send(buf: seq<byte>, cb: Callback) returns (ended: bool, out: seq<byte>)
      requires Valid()
      requires cb.ackdata ==> !cb.rexmit
      modifies this`state, this`sendbuf, this`sendptr, this`sendlen, this`inSend
      ensures Valid()
      ensures ended <==> Thread() == Idle
      ensures (Thread(), out) == if old(inSend) then Resume(old(Thread()), cb) else Begin(buf[..Counted(|buf|)], cb.mss)
    {
      if !inSend {
        if |buf| == 0 { return true, []; }
        sendbuf, sendptr, sendlen, state := buf, 0, Counted(|buf|), NONE;
      }
      out := [];
      if sendlen > 0 { out := SendRest(cb); }
      ended := !inSend;
    }

    /** The loop of psock_send, up to its next wait. */
    method SendRest(cb: Callback) returns (out: seq<byte>)
      requires Valid() && sendlen > 0 && (!inSend ==> state == NONE)
      requires cb.ackdata ==> !cb.rexmit
      modifies this`state, this`sendptr, this`sendlen, this`inSend
      ensures Valid()
      ensures
        var rest := old(sendbuf[sendptr..sendptr + sendlen]);
        (Thread(), out) == if old(inSend) then Resume(Sending(rest), cb) else Begin(rest, cb.mss)
    {
      ghost var rest := sendbuf[sendptr..sendptr + sendlen];
      var done: bool;
      done, out := DataIsSentAndAcked(cb);
      assert sendbuf[sendptr..sendptr + sendlen] == if done then rest[ChunkLen(rest, cb.mss)..] else rest;
      if done && sendlen > 0 {
        done, out := DataIsSentAndAcked(cb);
      }
      if sendlen == 0 { state := NONE; }
      inSend := sendlen > 0;
    }

    // ---- Reading up to a marker ----

    /** One step of the copying loop of buf_bufto. */
    method CopyByte() returns (c: byte)
      requires Valid() && left > 0 && readlen > 0
      modifies this`left, this`readptr, this`readlen, bufptr
      ensures Valid() && readlen == old(readlen) - 1 && readptr == old(readptr) + 1
      ensures c == old(Pending())[0] && Pending() == old(Pending())[1..] && Got() == old(Got()) + [c]
    {
      c := appdata[readptr];
      bufptr[bufptr.Length - left] := c;
      readptr := readptr + 1;
      readlen := readlen - 1;
      left := left - 1;
    }

    /** One step of the discarding loop of buf_bufto. */
    method SkipByte() returns (c: byte)
      requires Valid() && readlen > 0
      modifies this`readptr, this`readlen
      ensures Valid() && readlen == old(readlen) - 1 && readptr == old(readptr) + 1
      ensures c == old(Pending())[0] && Pending() == old(Pending())[1..]
    {
      c := appdata[readptr];
      readlen := readlen - 1;
      readptr := readptr + 1;
    }

    /** What remains to be read, as repeated reads would return it. */
    ghost function Future(marker: byte): (seq<seq<byte>>, seq<byte>)
      requires Valid()
      reads this, bufptr
    {
      Feed(Got(), bufptr.Length, marker, Pending())
    }

    /** buf_bufto; the result is the bit BUF_FOUND. */
    method BufTo(endmarker: byte) returns (found: bool)
      requires Valid()
      modifies this`left, this`readptr, this`readlen, bufptr
      ensures Valid()
      ensures
        if found then
          old(Future(endmarker)) == Prepend(Got(), Feed([], bufptr.Length, endmarker, Pending())) && readlen < old(readlen) && Got() != []
        else old(Future(endmarker)) == ([], Got()) && readlen == 0
    {
      ghost var all := Future(endmarker);
      found := false;
      while left > 0 && readlen > 0
        invariant Valid() && readlen <= old(readlen)
        invariant Future(endmarker) == all
        decreases readlen
      {
        ghost var got, data := Got(), Pending();
        var c := CopyByte();
        assert Got() == Store(got, bufptr.Length, data[0]);
        if c == endmarker { return true; }
      }
      while readlen > 0
        invariant Valid() && readlen <= old(readlen) && (readlen > 0 ==> left == 0)
        invariant Future(endmarker) == all
        decreases readlen
      {
        ghost var got, data := Got(), Pending();
        var c := SkipByte();
        assert Got() == Store(got, bufptr.Length, data[0]);
        if c == endmarker { return true; }
      }
    }

    /** psock_newdata. */
    method NewData(newdata: bool) returns (yes: bool)
      modifies this`state
      ensures yes == (readlen > 0 || (old(state) != READ && newdata))
      ensures state == if readlen == 0 && old(state) == READ then BLOCKED_NEWDATA else old(state)
    {
      if readlen > 0 {
        return true;
      } else if state == READ {
        state := BLOCKED_NEWDATA;
        return false;
      } else if newdata {
        return true;
      } else {
        return false;
      }
    }

    /** What a read can still consume in a callback that carries `data` if `newdata` is set. */
    ghost function Input(newdata: bool, data: seq<byte>): seq<byte>
      requires readptr + readlen <= |appdata|
      reads this`appdata, this`readptr, this`readlen, this`state
    {
      if readlen > 0 then Pending() else if state != READ && newdata then data else []
    }

    /** The contents of the buffer that the read about to run or resume starts from. */
    ghost function Open(): seq<byte>
      requires left <= bufptr.Length
      reads this`left, this`inRead, bufptr
    {
      if inRead then Got() else []
    }

    /** buf_setup, skipped when a waiting read is resumed. */
    method Setup()
      requires Valid()
      modifies this`left
      ensures Valid() && Got() == old(Open()) && left == (if inRead then old(left) else bufptr.Length)
    {
      if !inRead { left := bufptr.Length; }
    }

    /** The wait of a read: new data is taken up unless it was consumed earlier in the same callback. */
    method Await(newdata: bool, data: seq<byte>) returns (ready: bool)
      requires Valid() && !inSend && (readlen > 0 ==> state == READ)
      modifies this`state, this`appdata, this`readptr, this`readlen
      ensures Valid()
      ensures if ready then state == READ && Pending() == Input(newdata, data) == old(Input(newdata, data))
                            && (old(readlen) > 0 || old(state) != READ)
              else readlen == 0 && state != READ && old(Input(newdata, data)) == []
    {
      ready := true;
      if readlen == 0 {
        ready := NewData(newdata);
        if ready {
          state := READ;
          appdata, readptr, readlen := data, 0, |data|;
        }
      }
    }

    /**
      psock_readto: called afresh, or resumed at its wait. It ends with one record in the buffer; since the
      buffer has room for a byte that record is never empty, so the restart of the source cannot happen.
     */
    method ReadTo(marker: byte, newdata: bool, data: seq<byte>) returns (ended: bool)
      requires Valid() && !inSend && (readlen > 0 ==> state == READ)
      modifies this`state, this`appdata, this`left, this`readptr, this`readlen, this`inRead, bufptr
      ensures Valid() && (readlen > 0 ==> state == READ) && inRead == !ended
      ensures Feed(old(Open()), bufptr.Length, marker, old(Input(newdata, data))) ==
                if ended then Prepend(Got(), Feed([], bufptr.Length, marker, Input(newdata, data))) else ([], Got())
      ensures if ended then |Input(newdata, data)| < |old(Input(newdata, data))| else readlen == 0 && state != READ
    {
      Setup();
      ended := ReadToMarker(marker, newdata, data);
      inRead := !ended;
    }

    /** The loop of psock_readto. */
    method ReadToMarker(marker: byte, newdata: bool, data: seq<byte>) returns (found: bool)
      requires Valid() && !inSend && (readlen > 0 ==> state == READ)
      modifies this`state, this`appdata, this`left, this`readptr, this`readlen, bufptr
      ensures Valid() && (readlen > 0 ==> state == READ)
      ensures Feed(old(Got()), bufptr.Length, marker, old(Input(newdata, data))) ==
                if found then Prepend(Got(), Feed([], bufptr.Length, marker, Input(newdata, data))) else ([], Got())
      ensures if found then |Input(newdata, data)| < |old(Input(newdata, data))| else readlen == 0 && state != READ
    {
      ghost var size, got, input := bufptr.Length, Got(), Input(newdata, data);
      ghost var all, before := Feed(got, size, marker, input), |input|;
      found := false;
      while !found
        invariant Valid() && (readlen > 0 ==> state == READ)
        invariant got == Got() && input == Input(newdata, data)
        invariant all == if found then Prepend(got, Feed([], size, marker, input)) else Feed(got, size, marker, input)
        invariant if found then |input| < before else |input| <= before
        decreases !found, state != READ, readlen
      {
        var ready := Await(newdata, data);
        if !ready { return false; }
        found := BufTo(marker);
        got, input := Got(), Input(newdata, data);
      }
    }

    /** A thread that does nothing but call psock_readto: the records of one callback. */
    method ReadRecords(marker: byte, newdata: bool, data: seq<byte>) returns (records: seq<seq<byte>>)
      requires Valid() && !inSend && readlen == 0 && state != READ
      modifies this`state, this`appdata, this`left, this`readptr, this`readlen, this`inRead, bufptr
      ensures Valid() && readlen == 0 && state != READ && inRead
      ensures (records, Got()) == Feed(old(Open()), bufptr.Length, marker, if newdata then data else [])
    {
      records := [];
      ghost var all := Feed(Open(), bufptr.Length, marker, Input(newdata, data));
      var ended := ReadTo(marker, newdata, data);
      EmptyIsNeutral(all.0);
      while ended
        invariant Valid() && !inSend && (readlen > 0 ==> state == READ)
        invariant if ended then
                    var later := Prepend(Got(), Feed([], bufptr.Length, marker, Input(newdata, data)));
                    all == (records + later.0, later.1) && !inRead
                  else all == (records, Got()) && inRead && readlen == 0 && state != READ
        decreases ended, |Input(newdata, data)|
      {
        ghost var more := Feed([], bufptr.Length, marker, Input(newdata, data)).0;
        Associate(records, [Got()], more);
        records := records + [Got()];
        EmptyIsNeutral(records);
        ended := ReadTo(marker, newdata, data);
      }
    }

    // ---- Reading a number of bytes ----

    /** buf_bufdata; the result says whether the buffer is full. */
    method BufData() returns (full: bool)
      requires Valid()
      modifies this`left, this`readptr, this`readlen, bufptr
      ensures Valid()
      ensures
        var n := Min(|old(Pending())|, old(left));
        && Got() == old(Got()) + old(Pending())[..n] && Pending() == old(Pending())[n..]
        && left == old(left) - n && (full <==> left == 0)
    {
      var n := if readlen < left then readlen else left;
      ghost var got, data := Got(), Pending();
      var at := bufptr.Length - left;
      forall i | 0 <= i < n {
        bufptr[at + i] := appdata[readptr + i];
      }
      assert bufptr[..at + n] == got + data[..n];
      left := left - n;
      readptr := readptr + n;
      readlen := readlen - n;
      full := left == 0;
    }

    /** buf_bufdata and the loop condition: whether psock_readbuf_len needs more. */
    method GatherPending(len: nat) returns (more: bool)
      requires Valid() && left > 0 && |Got()| < AtLeastOne(len)
      modifies this`left, this`readptr, this`readlen, bufptr
      ensures Valid()
      ensures
        Gather(old(Got()), bufptr.Length, AtLeastOne(len), old(Pending())) ==
          if more || Got() == [] then ([], Got()) else Prepend(Got(), Gather([], bufptr.Length, AtLeastOne(len), Pending()))
      ensures if more || Got() == [] then readlen == 0 && left > 0 && |Got()| < AtLeastOne(len) else readlen < old(readlen)
    {
      GatherOnce(Got(), bufptr.Length, AtLeastOne(len), Pending());
      var full := BufData();
      more := !full && bufptr.Length - left < len;
    }

    /** The loop of psock_readbuf_len, which runs at most once before it waits again. */
    method ReadMore(len: nat, newdata: bool, data: seq<byte>) returns (ended: bool)
      requires Valid() && !inSend && (readlen > 0 ==> state == READ)
      requires left > 0 && |Got()| < AtLeastOne(len)
      modifies this`state, this`appdata, this`left, this`readptr, this`readlen, bufptr
      ensures Valid() && (readlen > 0 ==> state == READ)
      ensures Gather(old(Got()), bufptr.Length, AtLeastOne(len), old(Input(newdata, data))) ==
                if ended && Got() != [] then Prepend(Got(), Gather([], bufptr.Length, AtLeastOne(len), Input(newdata, data)))
                else ([], Got())
      ensures if ended && Got() != [] then |Input(newdata, data)| < |old(Input(newdata, data))|
              else readlen == 0 && left > 0 && |Got()| < AtLeastOne(len)
      ensures !ended ==> state != READ
    {
      ended := Await(newdata, data);
      if ended {
        var more := GatherPending(len);
        if more {
          ended := Await(newdata, data);
        } else {
          assert Pending() == Input(newdata, data);
        }
      }
    }

    /** psock_readbuf_len; it starts over in the next callback if it was asked for nothing and got nothing. */
    method ReadLen(len: nat, newdata: bool, data: seq<byte>) returns (ended: bool)
      requires Valid() && !inSend && (readlen > 0 ==> state == READ)
      requires inRead ==> left > 0 && |Got()| < AtLeastOne(len)
      modifies this`state, this`appdata, this`left, this`readptr, this`readlen, this`inRead, bufptr
      ensures Valid() && (readlen > 0 ==> state == READ) && (ended ==> !inRead)
      ensures Gather(old(Open()), bufptr.Length, AtLeastOne(len), old(Input(newdata, data))) ==
                if ended then Prepend(Got(), Gather([], bufptr.Length, AtLeastOne(len), Input(newdata, data))) else ([], Open())
      ensures if ended then |Input(newdata, data)| < |old(Input(newdata, data))|
              else readlen == 0 && state != READ && left > 0 && |Got()| < AtLeastOne(len)
    {
      Setup();
      ended := ReadMore(len, newdata, data);
      inRead := !ended;
      if ended && left == bufptr.Length {
        state := NONE;
        ended := false;
      }
    }

    /** A thread that does nothing but call psock_readbuf_len(len): the pieces of one callback. */
    method ReadPieces(len: nat, newdata: bool, data: seq<byte>) returns (pieces: seq<seq<byte>>)
      requires Valid() && !inSend && readlen == 0 && state != READ
      requires inRead ==> left > 0 && |Got()| < AtLeastOne(len)
      modifies this`state, this`appdata, this`left, this`readptr, this`readlen, this`inRead, bufptr
      ensures Valid() && readlen == 0 && state != READ && left > 0 && |Got()| < AtLeastOne(len)
      ensures (pieces, Open()) == Gather(old(Open()), bufptr.Length, AtLeastOne(len), if newdata then data else [])
    {
      pieces := [];
      ghost var size, n := bufptr.Length, AtLeastOne(len);
      ghost var all := Gather(Open(), size, n, Input(newdata, data));
      var ended := ReadLen(len, newdata, data);
      EmptyIsNeutral(all.0);
      while ended
        invariant Valid() && !inSend && (readlen > 0 ==> state == READ)
        invariant if ended then
                    var later := Prepend(Got(), Gather([], size, n, Input(newdata, data)));
                    all == (pieces + later.0, later.1) && !inRead
                  else all == (pieces, Open()) && readlen == 0 && state != READ && left > 0 && |Got()| < n
        decreases ended, |Input(newdata, data)|
      {
        ghost var more := Gather([], size, n, Input(newdata, data)).0;
        Associate(pieces, [Got()], more);
        pieces := pieces + [Got()];
        EmptyIsNeutral(pieces);
        ended := ReadLen(len, newdata, data);
      }
    }
  }
}
