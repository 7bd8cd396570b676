/**
 What the response handlers of BFCP requests are told: a failure reported to one of them is a failure of
 one of its own transmissions, or four transmissions without an answer; and no failed transmission goes
 unreported.
 */
module BfcpVerdicts {
  import opened Bytes
  import opened BfcpClient

  /** The error is that of a transmission of this request. */
  ghost predicate OfTransmission(sends: seq<nat>, call: Call, net: Network) {
    call.verdict.Failed? && exists k :: 0 <= k < |sends| && sends[k] == call.n && net(k) == Some(call.verdict.err)
  }

  ghost predicate CallsOk(sends: seq<nat>, calls: seq<Call>, net: Network) {
    forall i :: 0 <= i < |calls| ==>
      calls[i].verdict == Answered || calls[i].verdict == Failed(ETIMEDOUT) || OfTransmission(sends, calls[i], net)
  }

  /** A request whose transmission failed was never queued (its caller got the error), or its handler was told. */
  ghost predicate Reported(c: Conn, net: Network, k: nat)
    requires k < |c.sends| && net(k).Some?
  {
    c.sends[k] !in c.queued || Call(c.sends[k], Failed(net(k).value)) in c.calls
  }

  ghost predicate NoneMissed(c: Conn, net: Network) {
    forall k :: 0 <= k < |c.sends| && net(k).Some? ==> Reported(c, net, k)
  }

  ghost predicate VerdictsOk(c: Conn, net: Network) {
    CallsOk(c.sends, c.calls, net) && NoneMissed(c, net)
  }

  lemma CallsLater(a: seq<nat>, n: nat, calls: seq<Call>, net: Network)
    requires CallsOk(a, calls, net)
    ensures CallsOk(a + [n], calls, net)
  {
    forall i | 0 <= i < |calls| && OfTransmission(a, calls[i], net)
      ensures OfTransmission(a + [n], calls[i], net)
    {
      var k :| 0 <= k < |a| && a[k] == calls[i].n && net(k) == Some(calls[i].verdict.err);
      assert (a + [n])[k] == a[k];
    }
  }

  /** A transmission that went well. */
  lemma SentWell(c: Conn, d: Conn, n: nat, net: Network)
    requires VerdictsOk(c, net) && net(|c.sends|).None?
    requires d.sends == c.sends + [n] && d.calls == c.calls && d.queued == c.queued
    ensures VerdictsOk(d, net)
  {
    hide OfTransmission;
    CallsLater(c.sends, n, c.calls, net);
    forall k | 0 <= k < |d.sends| && net(k).Some? ensures Reported(d, net, k) {
      assert d.sends[k] == c.sends[k] && Reported(c, net, k);
    }
  }

  /** A transmission that failed, and the handler that was told. */
  lemma SentBadly(c: Conn, d: Conn, n: nat, net: Network)
    requires VerdictsOk(c, net) && net(|c.sends|).Some?
    requires d.sends == c.sends + [n] && d.calls == c.calls + [Call(n, Failed(net(|c.sends|).value))] && d.queued == c.queued
    ensures VerdictsOk(d, net)
  {
    CallsLater(c.sends, n, c.calls, net);
    var last := |c.sends|;
    assert d.sends[last] == n;
    assert OfTransmission(d.sends, d.calls[|c.calls|], net);
    forall k | 0 <= k < |d.sends| && net(k).Some? ensures Reported(d, net, k) {
      if k < last {
        assert d.sends[k] == c.sends[k] && Reported(c, net, k);
      } else {
        assert Call(n, Failed(net(k).value)) == d.calls[|c.calls|];
      }
    }
  }

  /** A handler told that it was answered, or that time is up. */
  lemma Told(c: Conn, d: Conn, call: Call, net: Network)
    requires VerdictsOk(c, net) && (call.verdict == Answered || call.verdict == Failed(ETIMEDOUT))
    requires d.sends == c.sends && d.calls == c.calls + [call] && d.queued == c.queued
    ensures VerdictsOk(d, net)
  {
    hide OfTransmission;
    forall k | 0 <= k < |d.sends| && net(k).Some? ensures Reported(d, net, k) {
      assert Reported(c, net, k);
    }
  }

  lemma {:induction false} DispatchVerdicts(c: Conn, net: Network)
    requires VerdictsOk(c, net)
    ensures VerdictsOk(Dispatch(c, net), net)
    decreases |c.queue|
  {
    hide VerdictsOk;
    if c.queue != [] {
      var n := c.queue[0].n;
      if net(|c.sends|).Some? {
        var f := Finish(Send(c, c.queue[0]), Failed(net(|c.sends|).value));
        SentBadly(c, f, n, net);
        DispatchVerdicts(f, net);
      } else {
        SentWell(c, Dispatch(c, net), n, net);
      }
    }
  }

  lemma TimeoutVerdicts(c: Conn, net: Network)
    requires VerdictsOk(c, net) && c.queue != []
    ensures VerdictsOk(Timeout(c, net), net)
  {
    hide VerdictsOk, Dispatch;
    var c0 := c.(timer := None, txc := c.txc + 1);
    var n := c.queue[0].n;
    if c.txc + 1 > TXC {
      var f := Finish(c0, Failed(ETIMEDOUT));
      Told(c, f, Call(n, Failed(ETIMEDOUT)), net);
      DispatchVerdicts(f, net);
    } else if net(|c.sends|).Some? {
      var f := Finish(Send(c0, c.queue[0]), Failed(net(|c.sends|).value));
      SentBadly(c, f, n, net);
      DispatchVerdicts(f, net);
    } else {
      SentWell(c, Timeout(c, net), n, net);
    }
  }

  lemma ResponseVerdicts(c: Conn, tid: nat, confid: nat, userid: nat, net: Network)
    requires VerdictsOk(c, net)
    ensures VerdictsOk(Response(c, tid, confid, userid, net), net)
  {
    hide VerdictsOk, Dispatch;
    if Matches(c, tid, confid, userid) {
      var f := Finish(c.(timer := None), Answered);
      Told(c, f, Call(c.queue[0].n, Answered), net);
      DispatchVerdicts(f, net);
    }
  }

  /** More requests queued, none of which has been transmitted. */
  lemma QueuedMore(c: Conn, d: Conn, n: nat, net: Network)
    requires VerdictsOk(c, net) && n !in c.sends
    requires d.sends == c.sends && d.calls == c.calls && d.queued == c.queued + [n]
    ensures VerdictsOk(d, net)
  {
    hide OfTransmission;
    forall k | 0 <= k < |d.sends| && net(k).Some? ensures Reported(d, net, k) {
      assert d.sends[k] in c.sends && Reported(c, net, k);
    }
  }

  /** A transmission on behalf of a request that is not queued. */
  lemma SentUnqueued(c: Conn, d: Conn, n: nat, net: Network)
    requires VerdictsOk(c, net) && n !in c.queued
    requires d.sends == c.sends + [n] && d.calls == c.calls && d.queued == c.queued
    ensures VerdictsOk(d, net)
  {
    hide OfTransmission;
    CallsLater(c.sends, n, c.calls, net);
    forall k | 0 <= k < |d.sends| && net(k).Some? ensures Reported(d, net, k) {
      if k < |c.sends| {
        assert d.sends[k] == c.sends[k] && Reported(c, net, k);
      }
    }
  }

  lemma NewNumber(c: Conn)
    requires Inv(c)
    ensures c.next !in c.sends && c.next !in c.queued
  {
  }

  lemma SameVerdicts(c: Conn, d: Conn, net: Network)
    requires VerdictsOk(c, net) && d.sends == c.sends && d.calls == c.calls && d.queued == c.queued
    ensures VerdictsOk(d, net)
  {
    hide OfTransmission;
    forall k | 0 <= k < |d.sends| && net(k).Some? ensures Reported(d, net, k) {
      assert Reported(c, net, k);
    }
  }

  lemma RequestVerdicts(c: Conn, confid: nat, userid: nat, encErr: Option<Error>, net: Network)
    requires Inv(c) && VerdictsOk(c, net)
    ensures VerdictsOk(Request(c, confid, userid, encErr, net), net)
  {
    hide VerdictsOk, Inv;
    NewNumber(c);
    var d := Request(c, confid, userid, encErr, net);
    if encErr.Some? {
      SameVerdicts(c, d, net);
    } else if c.queue != [] {
      QueuedMore(c, d, c.next, net);
    } else if net(|c.sends|).Some? {
      SentUnqueued(c, d, c.next, net);
    } else {
      var q := c.(queued := c.queued + [c.next]);
      QueuedMore(c, q, c.next, net);
      SentWell(q, d, c.next, net);
    }
  }

  lemma StepVerdicts(c: Conn, e: Event, net: Network)
    requires Inv(c) && VerdictsOk(c, net)
    ensures VerdictsOk(Step(c, e, net), net)
  {
    hide VerdictsOk, Fifo, SendsOk, InOrder, Timeout, Response, Request;
    match e
    case Ask(confid, userid, encErr) => RequestVerdicts(c, confid, userid, encErr, net);
    case Expire =>
      if c.timer.Some? {
        TimeoutVerdicts(c, net);
      }
    case Receive(tid, confid, userid) => ResponseVerdicts(c, tid, confid, userid, net);
  }

  lemma {:induction false} RunVerdicts(c: Conn, es: seq<Event>, net: Network)
    requires Inv(c) && VerdictsOk(c, net)
    ensures VerdictsOk(Run(c, es, net), net)
    decreases |es|
  {
    hide Inv, VerdictsOk, Step;
    if es != [] {
      StepInv(c, es[0], net);
      StepVerdicts(c, es[0], net);
      RunVerdicts(Step(c, es[0], net), es[1..], net);
    }
  }

  /** In every run of a connection. */
  lemma EveryVerdict(es: seq<Event>, net: Network)
    ensures var c := Run(IDLE, es, net);
            && (forall i :: 0 <= i < |c.calls| ==>
                  || c.calls[i].verdict == Answered || c.calls[i].verdict == Failed(ETIMEDOUT)
                  || OfTransmission(c.sends, c.calls[i], net))
            && (forall k :: 0 <= k < |c.sends| && net(k).Some? ==> Reported(c, net, k))
  {
    hide Run, Inv, OfTransmission;
    IdleInv();
    assert VerdictsOk(IDLE, net);
    RunVerdicts(IDLE, es, net);
  }
}
