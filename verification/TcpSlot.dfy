/**
  struct uip_conn and the part of uip_process that runs on it, written as the source writes it:
  assignments to the fields of the connection. Every label that is the target of a goto is a method.
 */
module TcpSlot {
  import opened Bytes
  import opened Tcp

  class UipConn {
    var ripaddr: u32
    var lport: u16
    var rport: u16
    var rcvNxt: u32
    var sndNxt: u32
    var len: u16
    var mss: u16
    var initialmss: u16
    var sa: byte
    var sv: byte
    var rto: byte
    var state: State
    var stopped: bool
    var timer: byte
    var nrtx: byte

    constructor ()
      ensures Value() == Conn(0, 0, 0, 0, 0, 0, 0, 0, 0, 0, 0, CLOSED, false, 0, 0)
    {
      ripaddr, lport, rport, rcvNxt, sndNxt := 0, 0, 0, 0, 0;
      len, mss, initialmss, sa, sv, rto, timer, nrtx := 0, 0, 0, 0, 0, 0, 0, 0;
      state, stopped := CLOSED, false;
    }

    function Value(): Conn
      reads this
    {
      Conn(ripaddr, lport, rport, rcvNxt, sndNxt, len, mss, initialmss, sa, sv, rto, state, stopped, timer, nrtx)
    }

    /** An assignment to the whole byte tcpstateflags. */
    method SetState(s: State)
      modifies this`state, this`stopped
      ensures Value() == old(Value()).(state := s, stopped := false)
    {
      state, stopped := s, false;
    }

    /** The effect of UIP_APPCALL on the connection. */
    method AppCall(flow: Flow)
      modifies this`stopped
      ensures Value() == Apply(old(Value()), flow)
    {
      match flow {
        case Keep =>
        case Stop => stopped := true;
        case Restart => stopped := false;
      }
    }

    /** Label tcp_send. */
    method Send(m: u16, flags: Flags, mssOption: Option<u16>, data: Payload) returns (s: Segment)
      ensures s == Header(m, Value(), flags, data).(mss := mssOption)
    {
      var wnd: u16 := m;
      if stopped { wnd := 0; }
      s := Segment(sndNxt, rcvNxt, flags, wnd, mssOption, data);
    }

    /** Label apprexmit. */
    method Rexmit(m: u16, newdata: bool, slen: u16, area: seq<byte>) returns (sent: Option<Segment>)
      ensures sent == AppRexmit(m, Value(), newdata, slen, area)
    {
      if slen > 0 && len > 0 {
        var s := Send(m, PSHACK, None, Take(area, len));
        return Some(s);
      }
      if newdata {
        var s := Send(m, ACK, None, []);
        return Some(s);
      }
      return None;
    }

    /** Label appsend; the callback has been made. */
    method AppSendLabel(m: u16, cb: Callback, r: Reply) returns (sent: Option<Segment>)
      modifies this
      ensures AppSend(m, old(Value()), cb, r) == Out(Value(), sent, Some(cb))
    {
      if r.ctl == Abort {
        SetState(CLOSED);
        var s := Send(m, RSTACK, None, []);
        return Some(s);
      }
      if r.ctl == Close {
        len := 1;
        SetState(FIN_WAIT_1);
        nrtx := 0;
        var s := Send(m, FINACK, None, []);
        return Some(s);
      }
      var slen := r.slen;
      if slen > 0 {
        if cb.ackdata { len := 0; }
        if len == 0 {
          if slen > mss { slen := mss; }
          len := slen;
        } else {
          slen := len;
        }
      }
      nrtx := 0;
      sent := Rexmit(m, cb.newdata || r.restarted, slen, r.area);
    }

    /** uip_process(UIP_TIMER). */
    method Periodic(m: u16, r: Reply) returns (sent: Option<Segment>, call: Option<Callback>)
      modifies this
      ensures Timer(m, old(Value()), r) == Out(Value(), sent, call)
    {
      sent, call := None, None;
      if Value().Is(TIME_WAIT) || Value().Is(FIN_WAIT_2) {
        timer := Wrap8(timer + 1);
        if timer == UIP_TIME_WAIT_TIMEOUT { SetState(CLOSED); }
      } else if !Value().Is(CLOSED) {
        if len > 0 {
          sent, call := Outstanding(m, r);
        } else if state == ESTABLISHED {
          var cb := Callback(poll := true, mss := mss);
          AppCall(r.flow);
          sent := AppSendLabel(m, cb, r);
          call := Some(cb);
        }
      }
    }

    /** The timer of a connection with outstanding data. */
    method Outstanding(m: u16, r: Reply) returns (sent: Option<Segment>, call: Option<Callback>)
      requires len > 0 && !Value().Is(TIME_WAIT) && !Value().Is(FIN_WAIT_2) && !Value().Is(CLOSED)
      modifies this
      ensures Timer(m, old(Value()), r) == Out(Value(), sent, call)
    {
      sent, call := None, None;
      var was := timer;
      timer := Wrap8(timer - 1);
      if was == 0 {
        if nrtx == UIP_MAXRTX || ((Value().Is(SYN_SENT) || Value().Is(SYN_RCVD)) && nrtx == UIP_MAXSYNRTX) {
          SetState(CLOSED);
          call := Some(Callback(timedout := true, mss := mss));
          AppCall(r.flow);
          var s := Send(m, RSTACK, None, []);
          return Some(s), call;
        }
        timer := ShiftRto(if nrtx > 4 then 4 else nrtx);
        nrtx := Wrap8(nrtx + 1);
        sent, call := Resend(m, r);
      }
    }

    /** UIP_RTO << n. */
    static function ShiftRto(n: byte): (r: byte)
      requires n <= 4
      ensures r == Backoff(n)
    {
      if n == 0 then UIP_RTO else 2 * ShiftRto(n - 1)
    }

    /** The switch that retransmits according to the state. */
    method Resend(m: u16, r: Reply) returns (sent: Option<Segment>, call: Option<Callback>)
      modifies this
      ensures Retransmit(m, old(Value()), r) == Out(Value(), sent, call)
    {
      sent, call := None, None;
      match state {
        case SYN_RCVD =>
          var s := Send(m, SYNACK, Some(m), []);
          sent := Some(s);
        case SYN_SENT =>
          var s := Send(m, SYN, Some(m), []);
          sent := Some(s);
        case ESTABLISHED =>
          call := Some(Callback(rexmit := true, mss := mss));
          AppCall(r.flow);
          sent := Rexmit(m, r.restarted, r.slen, r.area);
        case FIN_WAIT_1 | CLOSING | LAST_ACK =>
          var s := Send(m, FINACK, None, []);
          sent := Some(s);
        case CLOSED | FIN_WAIT_2 | TIME_WAIT =>
      }
    }

    /** uip_add_rcv_nxt. */
    method AddRcvNxt(n: nat)
      requires n <= 0x1_0000
      modifies this`rcvNxt
      ensures Value() == Receive(old(Value()), n)
    {
      rcvNxt := Add32(rcvNxt, n);
    }

    /** The tail of uip_connect. */
    method Open(m: u16, iss: u32, rip: u32, lp: u16, rp: u16)
      modifies this
      ensures Value() == ActiveOpen(m, old(Value()), iss, rip, lp, rp)
    {
      SetState(SYN_SENT);
      sndNxt := iss;
      mss := m;
      initialmss := mss;
      len := 1;
      nrtx := 0;
      timer := 1;
      rto := UIP_RTO;
      sa := 0;
      sv := 16;
      lport := lp;
      rport := rp;
      ripaddr := rip;
    }

    method ReadMssOption(m: u16, s: Segment)
      modifies this`mss, this`initialmss
      ensures Value() == ReadMss(m, old(Value()), s)
    {
      if s.mss.Some? {
        var v := s.mss.value;
        if v > m { mss := m; } else { mss := v; }
        initialmss := mss;
      }
    }

    /** Label found_listen, after a slot has been chosen. */
    method FillSlot(iss: u32, rip: u32, lp: u16, rp: u16, seqno: u32)
      modifies this
      ensures Value() == Fill(old(Value()), iss, rip, lp, rp, seqno)
    {
      SetState(SYN_RCVD);
      timer := UIP_RTO;
      rto := UIP_RTO;
      sa := 0;
      sv := 4;
      nrtx := 0;
      lport := lp;
      rport := rp;
      ripaddr := rip;
      sndNxt := iss;
      len := 1;
      rcvNxt := Add32(seqno, 1);
    }

    method Accept(m: u16, iss: u32, rip: u32, lp: u16, rp: u16, s: Segment) returns (sent: Option<Segment>)
      modifies this
      ensures PassiveOpen(m, old(Value()), iss, rip, lp, rp, s) == Out(Value(), sent, None)
    {
      FillSlot(iss, rip, lp, rp, s.seqno);
      ReadMssOption(m, s);
      var reply := Send(m, SYNACK, Some(m), []);
      sent := Some(reply);
    }

    /** The round-trip estimation, with m a signed char. */
    method EstimateRtt()
      modifies this
      ensures Value() == Estimate(old(Value()))
    {
      var m := SampleError(Value());
      sa := Wrap8(sa + m);
      sv := Wrap8(sv + DeviationStep(m, sv));
      rto := Wrap8(sa / 8 + sv);
    }

    /** The acknowledgement of outstanding data; the result is UIP_ACKDATA. */
    method AckOutstanding(s: Segment) returns (acked: bool)
      modifies this
      ensures Value() == AckStage(old(Value()), s)
      ensures acked == Acks(old(Value()), s)
    {
      acked := false;
      if s.flags.ack && len > 0 {
        var acc32 := Add32(sndNxt, len);
        if s.ackno == acc32 {
          sndNxt := acc32;
          if nrtx == 0 { EstimateRtt(); }
          acked := true;
          timer := rto;
          len := 0;
        }
      }
    }

    /** Label found: an incoming segment for this connection. */
    method Found(m: u16, s: Segment, r: Reply) returns (sent: Option<Segment>, call: Option<Callback>)
      modifies this
      ensures Input(m, old(Value()), s, r) == Out(Value(), sent, call)
    {
      sent, call := None, None;
      if s.flags.rst {
        SetState(CLOSED);
        call := Some(Callback(abort := true, mss := mss));
        AppCall(r.flow);
        return;
      }
      if !((state == SYN_SENT && s.flags == SYNACK) || (state == SYN_RCVD && s.flags == SYN)) {
        if (|s.data| > 0 || s.flags.syn || s.flags.fin) && s.seqno != rcvNxt {
          var a := Send(m, ACK, None, []);
          return Some(a), None;
        }
      }
      var acked := AckOutstanding(s);
      sent, call := FoundSwitch(m, s, acked, r);
    }

    /** The switch on the state of the connection. */
    method FoundSwitch(m: u16, s: Segment, acked: bool, r: Reply) returns (sent: Option<Segment>, call: Option<Callback>)
      modifies this
      ensures Dispatch(m, old(Value()), s, acked, r) == Out(Value(), sent, call)
    {
      sent, call := None, None;
      match state {
        case CLOSED =>
        case SYN_RCVD => sent, call := FoundSynRcvd(m, s, acked, r);
        case SYN_SENT => sent, call := FoundSynSent(m, s, acked, r);
        case ESTABLISHED => sent, call := FoundEstablished(m, s, acked, r);
        case LAST_ACK =>
          if acked {
            SetState(CLOSED);
            call := Some(Callback(close := true, mss := mss));
            AppCall(r.flow);
          }
        case FIN_WAIT_1 =>
          if |s.data| > 0 { AddRcvNxt(|s.data|); }
          sent, call := FoundFinWait1(m, s, acked, r);
        case FIN_WAIT_2 =>
          if |s.data| > 0 { AddRcvNxt(|s.data|); }
          sent, call := FoundFinWait2(m, s, r);
        case TIME_WAIT =>
          var a := Send(m, ACK, None, []);
          sent := Some(a);
        case CLOSING =>
          if acked {
            SetState(TIME_WAIT);
            timer := 0;
          }
      }
    }

    method FoundSynRcvd(m: u16, s: Segment, acked: bool, r: Reply) returns (sent: Option<Segment>, call: Option<Callback>)
      modifies this
      ensures InSynRcvd(m, old(Value()), s, acked, r) == Out(Value(), sent, call)
    {
      sent, call := None, None;
      if acked {
        SetState(ESTABLISHED);
        len := 0;
        if |s.data| > 0 { AddRcvNxt(|s.data|); }
        var cb := Callback(connected := true, newdata := |s.data| > 0, data := s.data, mss := mss);
        AppCall(r.flow);
        sent := AppSendLabel(m, cb, r);
        call := Some(cb);
      } else if s.flags == SYN {
        var a := Send(m, SYNACK, Some(m), []);
        sent := Some(a);
      }
    }

    method FoundSynSent(m: u16, s: Segment, acked: bool, r: Reply) returns (sent: Option<Segment>, call: Option<Callback>)
      modifies this
      ensures InSynSent(m, old(Value()), s, acked, r) == Out(Value(), sent, call)
    {
      if acked && s.flags == SYNACK {
        ReadMssOption(m, s);
        SetState(ESTABLISHED);
        rcvNxt := s.seqno;
        AddRcvNxt(1);
        len := 0;
        var cb := Callback(connected := true, newdata := true, mss := mss);
        AppCall(r.flow);
        sent := AppSendLabel(m, cb, r);
        call := Some(cb);
      } else {
        call := Some(Callback(abort := true, mss := mss));
        AppCall(r.flow);
        SetState(CLOSED);
        sent := ResetFor(s);
      }
    }

    method FoundEstablished(m: u16, s: Segment, acked: bool, r: Reply)
      returns (sent: Option<Segment>, call: Option<Callback>)
      modifies this
      ensures InEstablished(m, old(Value()), s, acked, r) == Out(Value(), sent, call)
    {
      sent, call := None, None;
      if s.flags.fin && !stopped {
        if len > 0 { return; }
        AddRcvNxt(1 + |s.data|);
        call := Some(Callback(ackdata := acked, close := true, newdata := |s.data| > 0, data := s.data, mss := mss));
        AppCall(r.flow);
        len := 1;
        SetState(LAST_ACK);
        nrtx := 0;
        var f := Send(m, FINACK, None, []);
        return Some(f), call;
      }
      var newdata := false;
      if |s.data| > 0 && !stopped {
        newdata := true;
        AddRcvNxt(|s.data|);
      }
      var tmp16 := s.wnd;
      if tmp16 > initialmss || tmp16 == 0 { tmp16 := initialmss; }
      mss := tmp16;
      if newdata || acked {
        var cb := Callback(ackdata := acked, newdata := newdata, data := if newdata then s.data else [], mss := mss);
        AppCall(r.flow);
        sent := AppSendLabel(m, cb, r);
        call := Some(cb);
      }
    }

    method FoundFinWait1(m: u16, s: Segment, acked: bool, r: Reply) returns (sent: Option<Segment>, call: Option<Callback>)
      modifies this
      ensures InFinWait1(m, old(Value()), s, acked, r) == Out(Value(), sent, call)
    {
      sent, call := None, None;
      if s.flags.fin {
        if acked {
          SetState(TIME_WAIT);
          timer := 0;
          len := 0;
        } else {
          SetState(CLOSING);
        }
        AddRcvNxt(1);
        call := Some(Callback(close := true, mss := mss));
        AppCall(r.flow);
        var a := Send(m, ACK, None, []);
        sent := Some(a);
      } else if acked {
        SetState(FIN_WAIT_2);
        len := 0;
      } else if |s.data| > 0 {
        var a := Send(m, ACK, None, []);
        sent := Some(a);
      }
    }

    method FoundFinWait2(m: u16, s: Segment, r: Reply) returns (sent: Option<Segment>, call: Option<Callback>)
      modifies this
      ensures InFinWait2(m, old(Value()), s, r) == Out(Value(), sent, call)
    {
      sent, call := None, None;
      if s.flags.fin {
        SetState(TIME_WAIT);
        timer := 0;
        AddRcvNxt(1);
        call := Some(Callback(close := true, mss := mss));
        AppCall(r.flow);
        var a := Send(m, ACK, None, []);
        sent := Some(a);
      } else if |s.data| > 0 {
        var a := Send(m, ACK, None, []);
        sent := Some(a);
      }
    }
  }
}
