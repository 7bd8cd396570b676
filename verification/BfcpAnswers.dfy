/**
 Transaction ids of the BFCP client, and what they are for: an answer completes the request it
 answers and no other one, also when the network delivers it again.
 */
module BfcpAnswers {
  import opened Arith
  import opened Bytes
  import opened BfcpClient

  /** The id of the n-th call: 1 to 65535, then from 1 again. Zero is never used. */
  function TidOf(n: nat): (tid: nat)
    ensures 1 <= tid <= 65535
  {
    1 + n % 65535
  }

  /** Any 65535 consecutive calls have different ids. */
  lemma TidsDiffer(n: nat, m: nat)
    requires n < m < n + 65535
    ensures TidOf(n) != TidOf(m)
  {
  }

  /** The counter is at the id of the next call, and every queued request has that of its own call. */
  ghost predicate TidsOk(c: Conn) {
    && c.tid < 65536 && (if c.tid == 0 then 1 else c.tid) == TidOf(c.next)
    && forall i :: 0 <= i < |c.queue| ==> c.queue[i].tid == TidOf(c.queue[i].n)
  }

  /** A tail of the queue, more callbacks, the counters as they were. */
  ghost predicate Later(c: Conn, d: Conn) {
    && d.tid == c.tid && d.next == c.next && d.queued == c.queued
    && |d.queue| <= |c.queue| && d.queue == c.queue[|c.queue| - |d.queue|..]
    && |c.calls| <= |d.calls| && d.calls[..|c.calls|] == c.calls
  }

  lemma Tail<T>(a: seq<T>, b: seq<T>, d: seq<T>)
    requires a != [] && b == a[1..] && |d| <= |b| && d == b[|b| - |d|..]
    ensures d == a[|a| - |d|..]
  {
  }

  lemma Front<T>(a: seq<T>, x: T, d: seq<T>)
    requires |a| + 1 <= |d| && d[..|a| + 1] == a + [x]
    ensures d[..|a|] == a && d[|a|] == x
  {
    assert d[..|a|] == d[..|a| + 1][..|a|];
    assert d[|a|] == d[..|a| + 1][|a|];
  }

  /** One request finished before that. */
  lemma LaterFinish(c: Conn, f: Conn, d: Conn, v: Verdict)
    requires c.queue != [] && f.queue == c.queue[1..] && f.calls == c.calls + [Call(c.queue[0].n, v)]
    requires f.tid == c.tid && f.next == c.next && f.queued == c.queued && Later(f, d)
    ensures Later(c, d) && |d.calls| > |c.calls| && d.calls[|c.calls|] == Call(c.queue[0].n, v)
  {
    Tail(c.queue, f.queue, d.queue);
    Front(c.calls, Call(c.queue[0].n, v), d.calls);
  }

  /** dispatch leaves such a state. */
  lemma {:induction false} DispatchLater(c: Conn, net: Network)
    ensures Later(c, Dispatch(c, net))
    decreases |c.queue|
  {
    hide Later;
    if c.queue != [] && net(|c.sends|).Some? {
      var v := Failed(net(|c.sends|).value);
      var f := Finish(Send(c, c.queue[0]), v);
      DispatchLater(f, net);
      LaterFinish(c, f, Dispatch(f, net), v);
    } else {
      LaterSelf(c, Dispatch(c, net));
    }
  }

  lemma LaterSelf(c: Conn, d: Conn)
    requires d.queue == c.queue && d.calls == c.calls && d.tid == c.tid && d.next == c.next && d.queued == c.queued
    ensures Later(c, d)
  {
    assert c.queue[0..] == c.queue && c.calls[..|c.calls|] == c.calls;
  }

  lemma LaterTids(c: Conn, d: Conn)
    requires TidsOk(c) && Later(c, d)
    ensures TidsOk(d)
  {
  }

  lemma TimeoutLater(c: Conn, net: Network)
    ensures Later(c, Timeout(c, net))
  {
    hide Dispatch, Later;
    var d := Timeout(c, net);
    var c0 := c.(timer := None, txc := c.txc + 1);
    if c.queue != [] && c.txc + 1 > TXC {
      FinishedLater(c, Finish(c0, Failed(ETIMEDOUT)), Failed(ETIMEDOUT), net);
    } else if c.queue != [] && net(|c.sends|).Some? {
      var v := Failed(net(|c.sends|).value);
      FinishedLater(c, Finish(Send(c0, c.queue[0]), v), v, net);
    } else {
      LaterSelf(c, d);
    }
  }

  /** One request is finished and the next ones are dispatched. */
  lemma FinishedLater(c: Conn, f: Conn, v: Verdict, net: Network)
    requires c.queue != [] && f.queue == c.queue[1..] && f.calls == c.calls + [Call(c.queue[0].n, v)]
    requires f.tid == c.tid && f.next == c.next && f.queued == c.queued
    ensures var d := Dispatch(f, net);
            Later(c, d) && |d.calls| > |c.calls| && d.calls[|c.calls|] == Call(c.queue[0].n, v)
  {
    hide Dispatch, Later;
    DispatchLater(f, net);
    LaterFinish(c, f, Dispatch(f, net), v);
  }

  lemma ResponseLater(c: Conn, tid: nat, confid: nat, userid: nat, net: Network)
    ensures Later(c, Response(c, tid, confid, userid, net))
  {
    hide Dispatch, Later;
    if Matches(c, tid, confid, userid) {
      FinishedLater(c, Finish(c.(timer := None), Answered), Answered, net);
    } else {
      LaterSelf(c, c);
    }
  }

  lemma NextTid(n: nat)
    ensures var t := (TidOf(n) + 1) % 0x1_0000; (if t == 0 then 1 else t) == TidOf(n + 1)
  {
    NextRemainder(n);
  }

  lemma NextRemainder(n: nat)
    ensures (n + 1) % 65535 == if n % 65535 == 65534 then 0 else n % 65535 + 1
  {
    var q, r := n / 65535, n % 65535;
    if r == 65534 {
      DivUnique(n + 1, 65535, q + 1, 0);
    } else {
      DivUnique(n + 1, 65535, q, r + 1);
    }
  }

  lemma RequestTids(c: Conn, confid: nat, userid: nat, encErr: Option<Error>, net: Network)
    requires TidsOk(c)
    ensures TidsOk(Request(c, confid, userid, encErr, net))
    ensures Request(c, confid, userid, encErr, net).calls == c.calls
  {
    hide TidOf;
    NextTid(c.next);
  }

  lemma StepTids(c: Conn, e: Event, net: Network)
    requires TidsOk(c)
    ensures TidsOk(Step(c, e, net))
    ensures var d := Step(c, e, net); |c.calls| <= |d.calls| && d.calls[..|c.calls|] == c.calls
  {
    hide TidsOk, Timeout, Response, Request;
    assert c.calls[..|c.calls|] == c.calls;
    match e
    case Ask(confid, userid, encErr) =>
      RequestTids(c, confid, userid, encErr, net);
    case Expire =>
      if c.timer.Some? {
        TimeoutLater(c, net);
        LaterTids(c, Timeout(c, net));
      }
    case Receive(tid, confid, userid) =>
      ResponseLater(c, tid, confid, userid, net);
      LaterTids(c, Response(c, tid, confid, userid, net));
  }

  /** Over every run: ids as above, and callbacks are only ever added. */
  lemma {:induction false} RunTids(c: Conn, es: seq<Event>, net: Network)
    requires TidsOk(c)
    ensures TidsOk(Run(c, es, net))
    ensures var d := Run(c, es, net); |c.calls| <= |d.calls| && d.calls[..|c.calls|] == c.calls
    decreases |es|
  {
    hide TidsOk, Step;
    if es != [] {
      var c1 := Step(c, es[0], net);
      StepTids(c, es[0], net);
      RunTids(c1, es[1..], net);
      var d := Run(c1, es[1..], net);
      assert d.calls[..|c.calls|] == d.calls[..|c1.calls|][..|c.calls|];
    }
  }

  /**
   In every run from an idle connection the queued requests have ids between 1 and 65535, and two
   of them that were asked for within 65535 calls have different ones.
   */
  lemma EveryRunTids(es: seq<Event>, net: Network, i: nat, j: nat)
    requires i < j < |Run(IDLE, es, net).queue|
    ensures var q := Run(IDLE, es, net).queue;
            && 1 <= q[i].tid <= 65535 && 1 <= q[j].tid <= 65535 && q[i].n < q[j].n
            && (q[j].n < q[i].n + 65535 ==> q[i].tid != q[j].tid)
  {
    hide Run, Inv;
    var c := Run(IDLE, es, net);
    RunTids(IDLE, es, net);
    IdleInv();
    RunInv(IDLE, es, net);
    assert Fifo(c) by { FifoOf(c); }
    QueueIncreasing(c, i, j);
    if c.queue[j].n < c.queue[i].n + 65535 {
      TidsDiffer(c.queue[i].n, c.queue[j].n);
    }
  }

  lemma FifoOf(c: Conn)
    requires Inv(c)
    ensures Fifo(c)
  {
  }

  /**
   An answer is one to the first request exactly when all three fields are that request's; then
   that request is called back, first of all. Any other answer changes nothing.
   */
  lemma OnlyItsAnswer(c: Conn, tid: nat, confid: nat, userid: nat, net: Network)
    requires c.queue != []
    ensures var d, r := Response(c, tid, confid, userid, net), c.queue[0];
            if tid == r.tid && confid == r.confid && userid == r.userid
            then |d.calls| > |c.calls| && d.calls[..|c.calls|] == c.calls && d.calls[|c.calls|] == Call(r.n, Answered)
            else d == c
  {
    hide Dispatch;
    FinishedLater(c, Finish(c.(timer := None), Answered), Answered, net);
  }

  /**
   The same answer again: after it has completed a request, it can complete another one only when
   that was asked for at least 65535 calls later, whatever happens in between.
   */
  lemma NoSecondAnswer(c: Conn, es: seq<Event>, net: Network, tid: nat, confid: nat, userid: nat)
    requires Inv(c) && TidsOk(c) && Matches(c, tid, confid, userid)
    ensures var d := Run(Response(c, tid, confid, userid, net), es, net);
            Matches(d, tid, confid, userid) ==> d.queue[0].n >= c.queue[0].n + 65535
  {
    hide Run, Inv, Response;
    var n := c.queue[0].n;
    var c1 := Response(c, tid, confid, userid, net);
    var d := Run(c1, es, net);
    ResponseInv(c, tid, confid, userid, net);
    ResponseLater(c, tid, confid, userid, net);
    LaterTids(c, c1);
    RunInv(c1, es, net);
    RunTids(c1, es, net);
    OnlyItsAnswer(c, tid, confid, userid, net);
    assert d.calls[|c.calls|] == d.calls[..|c1.calls|][|c.calls|];
    if Matches(d, tid, confid, userid) && d.queue[0].n < n + 65535 {
      FifoOf(d);
      CallsBeforeQueue(d, |c.calls|, 0);
      TidsDiffer(n, d.queue[0].n);
    }
  }

  /** In particular from an idle connection. */
  lemma NoSecondAnswerEver(before: seq<Event>, after: seq<Event>, net: Network, tid: nat, confid: nat, userid: nat)
    requires Matches(Run(IDLE, before, net), tid, confid, userid)
    ensures var c := Run(IDLE, before, net);
            var d := Run(Response(c, tid, confid, userid, net), after, net);
            Matches(d, tid, confid, userid) ==> d.queue[0].n >= c.queue[0].n + 65535
  {
    hide Run, Inv, Response;
    IdleInv();
    RunInv(IDLE, before, net);
    RunTids(IDLE, before, net);
    NoSecondAnswer(Run(IDLE, before, net), after, net, tid, confid, userid);
  }

  /**
   What bfcp_vrequest tells its caller: without an error the request has been accepted and will be
   called back; with one, which is that of the encoder or of the transport, it has not been.
   */
  lemma AcceptedIff(c: Conn, confid: nat, userid: nat, encErr: Option<Error>, net: Network)
    ensures var d, err := Request(c, confid, userid, encErr, net), RequestError(c, encErr, net);
            && d.queued == (if err.None? then c.queued + [c.next] else c.queued)
            && d.queue == (if err.None? then c.queue + [Req(c.next, if c.tid == 0 then 1 else c.tid, confid, userid)] else c.queue)
            && d.calls == c.calls
            && (err.Some? ==> err == encErr || (encErr.None? && c.queue == [] && err == net(|c.sends|)))
            && (encErr.Some? ==> err == encErr && d.sends == c.sends)
  {
  }
}
