/** rtsp_recv_handler as it shifts the client's receive buffer, proved against the stream's meaning. */
module RtspCode {
  import opened Bytes
  import opened Rtsp

  /** strstr for the blank line in the NUL-terminated buffer. */
  method FindBlank(buf: seq<Byte>) returns (n: nat)
    ensures n == RequestEnd(buf, 0)
  {
    var i := 0;
    while i + 4 <= |buf| && buf[i] != 0
      invariant 0 <= i
      invariant RequestEnd(buf, 0) == RequestEnd(buf, i)
      decreases |buf| - i
    {
      if buf[i] == 13 && buf[i + 1] == 10 && buf[i + 2] == 13 && buf[i + 3] == 10 {
        assert buf[i..i + 4] == BLANK;
        return i + 4;
      }
      assert buf[i..i + 4] != BLANK by {
        assert buf[i..i + 4][0] == buf[i] && buf[i..i + 4][1] == buf[i + 1];
        assert buf[i..i + 4][2] == buf[i + 2] && buf[i..i + 4][3] == buf[i + 3];
      }
      i := i + 1;
    }
    n := 0;
  }

  /** The backchannel branch: strip the RTP header, play what is left. */
  method Frame<S>(s: Session<S>, data: seq<Byte>, total: nat) returns (es: seq<Event>)
    requires 4 <= total <= |data| && total == 4 + U16(data[2], data[3])
    ensures es == Payload(s, data[..total])
  {
    es := [];
    var len := total - 4;
    ghost var rtp := data[..total][4..];
    assert forall i :: 0 <= i < len ==> data[4 + i] == rtp[i];
    if s.backchannel && data[1] == s.channel && len >= 12 {
      var hdr: nat := 12 + data[4] % 16 * 4;
      if data[4] / 16 % 2 == 1 && len >= hdr + 4 {
        hdr := hdr + 4 + U16(data[4 + hdr + 2], data[4 + hdr + 3]) * 4;
      }
      assert hdr == RtpHeader(rtp);
      if len > hdr && s.speaker {
        es := [Play(data[4 + hdr..total])];
        assert data[4 + hdr..total] == rtp[hdr..];
      }
    }
  }

  /** One turn of the loop. */
  lemma ProcessTurn<S>(s: Session<S>, buf: seq<Byte>, dispatch: Dispatch<S>, events: seq<Event>)
    requires NextUnit(buf) != 0
    ensures var n := NextUnit(buf);
            var (s', es, freed) := Handle(s, buf[..n], dispatch);
            var o := Process(s, buf, dispatch);
            if freed then o == Outcome(s', [], es, true)
            else
              var o' := Process(s', buf[n..], dispatch);
              o == o'.(events := es + o'.events) && events + o.events == (events + es) + o'.events
  {
  }

  class Client<S> {
    var session: Session<S>
    var rbuf: seq<Byte>
    var closed: bool
    /** The requests dispatched and the sounds played. */
    var events: seq<Event>

    ghost function Abs(): (o: Outcome<S>)
      reads this
    {
      Outcome(session, rbuf, events, closed)
    }

    constructor (session: Session<S>)
      ensures Abs() == Outcome(session, [], [], false)
    {
      this.session, rbuf, closed, events := session, [], false, [];
    }

    /** rtsp_recv_handler. The loop ends because every turn takes bytes out of the buffer. */
    method Recv(seg: seq<Byte>, dispatch: Dispatch<S>)
      requires !closed
      modifies this
      ensures Abs() == Receive(old(Abs()), seg, dispatch)
    {
      hide NextUnit, Handle, Process, Payload;
      if |rbuf| + |seg| > LIMIT {
        rbuf, closed := [], true;
        return;
      }
      rbuf := rbuf + seg;
      ghost var o := Process(session, rbuf, dispatch);
      ghost var all := events + o.events;
      while true
        invariant !closed
        invariant var now := Process(session, rbuf, dispatch);
                  now.(events := o.events) == o && events + now.events == all
        decreases |rbuf|
      {
        var n := Complete(rbuf);
        if n == 0 {
          Stopped(session, rbuf, dispatch, events);
          break;
        }
        ProcessTurn(session, rbuf, dispatch, events);
        var es: seq<Event>;
        var s', freed := session, false;
        if rbuf[0] == DOLLAR {
          FrameUnit(session, rbuf, dispatch);
          es := Frame(session, rbuf, n);
        } else {
          RequestUnit(session, rbuf, dispatch);
          var r := dispatch(session, rbuf[..n]);
          s', es, freed := r.0, [Request(rbuf[..n])], r.1;
        }
        session, events := s', events + es;
        if freed {
          rbuf, closed := [], true;
          return;
        }
        rbuf := rbuf[n..];
      }
    }
  }

  lemma Stopped<S>(s: Session<S>, buf: seq<Byte>, dispatch: Dispatch<S>, events: seq<Event>)
    requires NextUnit(buf) == 0
    ensures Process(s, buf, dispatch) == Outcome(s, buf, [], false) && events + [] == events
  {
  }

  lemma FrameUnit<S>(s: Session<S>, buf: seq<Byte>, dispatch: Dispatch<S>)
    requires NextUnit(buf) != 0 && buf[0] == DOLLAR
    ensures NextUnit(buf) == 4 + U16(buf[2], buf[3])
    ensures Handle(s, buf[..NextUnit(buf)], dispatch) == (s, Payload(s, buf[..NextUnit(buf)]), false)
  {
  }

  lemma RequestUnit<S>(s: Session<S>, buf: seq<Byte>, dispatch: Dispatch<S>)
    requires NextUnit(buf) != 0 && buf[0] != DOLLAR
    ensures var unit := buf[..NextUnit(buf)];
            Handle(s, unit, dispatch) == (dispatch(s, unit).0, [Request(unit)], dispatch(s, unit).1)
  {
  }

  /** How many bytes of the buffer are a complete unit. */
  method Complete(data: seq<Byte>) returns (n: nat)
    ensures n == NextUnit(data)
  {
    if |data| == 0 {
      return 0;
    }
    if data[0] == DOLLAR {
      if |data| < 4 {
        return 0;
      }
      var total := 4 + U16(data[2], data[3]);
      if |data| < total {
        return 0;
      }
      return total;
    }
    n := FindBlank(data);
  }
}
