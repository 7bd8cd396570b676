/**
 BFCP client transactions (bfcp/request.c): a queue of requests of which only the first is on the
 network, retransmitted with doubling waits until it is answered or given up. Section 8.3 of
 RFC 8855. Response handlers do not issue requests themselves.
 */
module BfcpClient {
  import opened Bytes

  const T1 := 500
  const TXC := 4

  /** struct bfcp_ctrans; n numbers the calls of bfcp_vrequest. */
  datatype Req = Req(n: nat, tid: nat, confid: nat, userid: nat)

  datatype Verdict = Answered | Failed(err: Error)

  datatype Call = Call(n: nat, verdict: Verdict)

  /**
   The connection and its history: transmissions (by request), calls of response handlers, and
   requests accepted into the queue. `timer` is the wait that tmr1 was started with.
   */
  datatype Conn = Conn(
    queue: seq<Req>, txc: nat, tid: nat, timer: Option<nat>,
    next: nat, sends: seq<nat>, calls: seq<Call>, queued: seq<nat>)

  /** The transport: the error of the k-th transmission, if any. */
  type Network = nat -> Option<Error>

  function Send(c: Conn, r: Req): Conn {
    c.(sends := c.sends + [r.n])
  }

  /** Call the handler of the first request and drop it. */
  function Finish(c: Conn, v: Verdict): Conn
    requires c.queue != []
  {
    c.(queue := c.queue[1..], calls := c.calls + [Call(c.queue[0].n, v)])
  }

  function Armed(c: Conn, wait: nat, txc: nat): Conn {
    c.(timer := Some(wait), txc := txc)
  }

  /** dispatch: transmit the first request that the transport takes; the others before it fail. */
  function Dispatch(c: Conn, net: Network): (r: Conn)
    decreases |c.queue|
  {
    if c.queue == [] then c
    else
      var c1 := Send(c, c.queue[0]);
      match net(|c.sends|)
      case Some(e) => Dispatch(Finish(c1, Failed(e)), net)
      case None => Armed(c1, T1, 1)
  }

  /** BFCP_T1 << txc */
  function Wait(txc: nat): (ms: nat) {
    if txc == 0 then T1 else 2 * Wait(txc - 1)
  }

  /** tmr_handler: the timer has just run out. */
  function Timeout(c: Conn, net: Network): (r: Conn) {
    var c0 := c.(timer := None);
    if c.queue == [] then c0
    else if c.txc + 1 > TXC then Dispatch(Finish(c0.(txc := c.txc + 1), Failed(ETIMEDOUT)), net)
    else
      var c1 := Send(c0.(txc := c.txc + 1), c.queue[0]);
      match net(|c.sends|)
      case Some(e) => Dispatch(Finish(c1, Failed(e)), net)
      case None => Armed(c1, Wait(c.txc), c.txc + 1)
  }

  predicate Matches(c: Conn, tid: nat, confid: nat, userid: nat) {
    c.queue != [] && c.queue[0].tid == tid && c.queue[0].confid == confid && c.queue[0].userid == userid
  }

  /** bfcp_handle_response: only an answer to the first request counts. */
  function Response(c: Conn, tid: nat, confid: nat, userid: nat, net: Network): (r: Conn) {
    if Matches(c, tid, confid, userid) then Dispatch(Finish(c.(timer := None), Answered), net) else c
  }

  /** bfcp_vrequest; encErr is the outcome of encoding the message. */
  function Request(c: Conn, confid: nat, userid: nat, encErr: Option<Error>, net: Network): (r: Conn) {
    var tid := if c.tid == 0 then 1 else c.tid;
    var r := Req(c.next, tid, confid, userid);
    var c0 := c.(tid := (tid + 1) % 0x1_0000, next := c.next + 1);
    if encErr.Some? then c0
    else
      var queuing := c0.(queue := c.queue + [r], queued := c.queued + [r.n]);
      if c.queue != [] then queuing
      else match net(|c.sends|)
        case Some(_) => Send(c0, r)
        case None => Armed(Send(queuing, r), T1, 1)
  }

  /** The error that bfcp_vrequest returns. */
  function RequestError(c: Conn, encErr: Option<Error>, net: Network): (e: Option<Error>) {
    if encErr.Some? then encErr else if c.queue == [] then net(|c.sends|) else None
  }

  datatype Event =
    | Ask(confid: nat, userid: nat, encErr: Option<Error>)
    | Expire
    | Receive(tid: nat, confid: nat, userid: nat)

  /** An event of a run; the timer can run out only when it is armed. */
  function Step(c: Conn, e: Event, net: Network): (r: Conn) {
    match e
    case Ask(confid, userid, encErr) => Request(c, confid, userid, encErr, net)
    case Expire => if c.timer.Some? then Timeout(c, net) else c
    case Receive(tid, confid, userid) => Response(c, tid, confid, userid, net)
  }

  function Run(c: Conn, es: seq<Event>, net: Network): (r: Conn)
    decreases |es|
  {
    if es == [] then c else Run(Step(c, es[0], net), es[1..], net)
  }

  // ---------------------------------------------------------------- invariant

  function Count(s: seq<nat>, n: nat): (k: nat) {
    if s == [] then 0 else (if s[|s| - 1] == n then 1 else 0) + Count(s[..|s| - 1], n)
  }

  function CallNs(cs: seq<Call>): (r: seq<nat>)
    ensures |r| == |cs| && forall i :: 0 <= i < |cs| ==> r[i] == cs[i].n
  {
    seq(|cs|, i requires 0 <= i < |cs| => cs[i].n)
  }

  function ReqNs(rs: seq<Req>): (r: seq<nat>)
    ensures |r| == |rs| && forall i :: 0 <= i < |rs| ==> r[i] == rs[i].n
  {
    seq(|rs|, i requires 0 <= i < |rs| => rs[i].n)
  }

  ghost predicate Increasing(s: seq<nat>, bound: nat) {
    && (forall i, j :: 0 <= i < j < |s| ==> s[i] < s[j])
    && (forall i :: 0 <= i < |s| ==> s[i] < bound)
  }

  /** Accepted requests, in order: those called back, then those still in the queue. */
  ghost predicate Fifo(c: Conn) {
    c.queued == CallNs(c.calls) + ReqNs(c.queue) && Increasing(c.queued, c.next)
  }

  /** The timer runs exactly while something is queued, with the wait of the last transmission. */
  ghost predicate TimerOk(c: Conn) {
    && (c.queue != [] <==> c.timer.Some?)
    && (c.queue != [] ==> 1 <= c.txc <= TXC && c.timer == Some(Wait(c.txc - 1)))
  }

  /** Only the first queued request has been transmitted, txc times; finished ones 1 to 4 times. */
  ghost predicate SendsOk(c: Conn) {
    && (forall i :: 0 <= i < |c.queue| ==> Count(c.sends, c.queue[i].n) == if i == 0 then c.txc else 0)
    && (forall i :: 0 <= i < |c.calls| ==> 1 <= Count(c.sends, c.calls[i].n) <= TXC)
    && (forall k :: 0 <= k < |c.sends| ==> c.sends[k] < c.next)
  }

  /** One request at a time: transmissions are in the order of the requests. */
  ghost predicate InOrder(c: Conn) {
    && (forall i, j :: 0 <= i < j < |c.sends| ==> c.sends[i] <= c.sends[j])
    && (c.queue != [] ==> forall k :: 0 <= k < |c.sends| ==> c.sends[k] <= c.queue[0].n)
  }

  ghost predicate Inv(c: Conn) {
    Fifo(c) && TimerOk(c) && SendsOk(c) && InOrder(c)
  }

  /** Between two transactions: the queue is as it will be, and its first request is not sent yet. */
  ghost predicate Between(c: Conn) {
    && Fifo(c) && c.timer.None?
    && (forall i :: 0 <= i < |c.queue| ==> Count(c.sends, c.queue[i].n) == 0)
    && (forall i :: 0 <= i < |c.calls| ==> 1 <= Count(c.sends, c.calls[i].n) <= TXC)
    && (forall k :: 0 <= k < |c.sends| ==> c.sends[k] < c.next)
    && InOrder(c)
  }

  lemma CountMore(s: seq<nat>, m: nat, n: nat)
    ensures Count(s + [m], n) == Count(s, n) + if m == n then 1 else 0
  {
    assert (s + [m])[..|s|] == s;
  }

  lemma {:induction false} CountZero(s: seq<nat>, n: nat)
    requires forall k :: 0 <= k < |s| ==> s[k] != n
    ensures Count(s, n) == 0
  {
    if s != [] {
      CountZero(s[..|s| - 1], n);
    }
  }

  /** Finishing the first request, once it has been transmitted at least once. */
  lemma FinishKeeps(c: Conn, v: Verdict)
    requires Fifo(c) && InOrder(c) && c.queue != [] && c.timer.None?
    requires forall i :: 0 < i < |c.queue| ==> Count(c.sends, c.queue[i].n) == 0
    requires 1 <= Count(c.sends, c.queue[0].n) <= TXC
    requires forall i :: 0 <= i < |c.calls| ==> 1 <= Count(c.sends, c.calls[i].n) <= TXC
    requires forall k :: 0 <= k < |c.sends| ==> c.sends[k] < c.next
    ensures Between(Finish(c, v))
  {
    var d := Finish(c, v);
    FinishFifo(c, v);
    assert forall i :: 0 <= i < |d.queue| ==> d.queue[i] == c.queue[i + 1];
    if d.queue != [] {
      QueueIncreasing(c, 0, 1);
    }
  }

  lemma FinishFifo(c: Conn, v: Verdict)
    requires Fifo(c) && c.queue != []
    ensures Fifo(Finish(c, v))
  {
    hide Increasing, CallNs, ReqNs;
    var d, h := Finish(c, v), c.queue[0].n;
    CallNsMore(c.calls, Call(h, v));
    ReqNsFirst(c.queue);
    Assoc(CallNs(c.calls), [h], ReqNs(d.queue));
  }

  lemma CallNsMore(cs: seq<Call>, c: Call)
    ensures CallNs(cs + [c]) == CallNs(cs) + [c.n]
  {
  }

  lemma ReqNsFirst(rs: seq<Req>)
    requires rs != []
    ensures ReqNs(rs) == [rs[0].n] + ReqNs(rs[1..])
  {
  }

  lemma QueueIncreasing(c: Conn, i: nat, j: nat)
    requires Fifo(c) && i < j < |c.queue|
    ensures c.queue[i].n < c.queue[j].n
  {
    var k := |c.calls|;
    assert c.queued[k + i] == c.queue[i].n && c.queued[k + j] == c.queue[j].n;
  }

  lemma CallsBeforeQueue(c: Conn, i: nat, j: nat)
    requires Fifo(c) && i < |c.calls| && j < |c.queue|
    ensures c.calls[i].n < c.queue[j].n < c.next
  {
    assert c.queued[i] == c.calls[i].n && c.queued[|c.calls| + j] == c.queue[j].n;
  }

  /** Transmitting the first request once more. */
  lemma SendKeeps(c: Conn)
    requires Fifo(c) && InOrder(c) && c.queue != []
    requires forall i :: 0 < i < |c.queue| ==> Count(c.sends, c.queue[i].n) == 0
    requires forall i :: 0 <= i < |c.calls| ==> 1 <= Count(c.sends, c.calls[i].n) <= TXC
    requires forall k :: 0 <= k < |c.sends| ==> c.sends[k] < c.next
    ensures var d := Send(c, c.queue[0]);
            && Fifo(d) && InOrder(d)
            && Count(d.sends, c.queue[0].n) == Count(c.sends, c.queue[0].n) + 1
            && (forall i :: 0 < i < |d.queue| ==> Count(d.sends, d.queue[i].n) == 0)
            && (forall i :: 0 <= i < |d.calls| ==> 1 <= Count(d.sends, d.calls[i].n) <= TXC)
            && (forall k :: 0 <= k < |d.sends| ==> d.sends[k] < d.next)
  {
    hide Count;
    var h := c.queue[0].n;
    var d := Send(c, c.queue[0]);
    CountMore(c.sends, h, h);
    forall i | 0 < i < |d.queue| ensures Count(d.sends, d.queue[i].n) == 0 {
      QueueIncreasing(c, 0, i);
      CountMore(c.sends, h, c.queue[i].n);
    }
    forall i | 0 <= i < |d.calls| ensures 1 <= Count(d.sends, d.calls[i].n) <= TXC {
      CallsBeforeQueue(c, i, 0);
      CountMore(c.sends, h, c.calls[i].n);
    }
    HeadBound(c);
  }

  lemma HeadBound(c: Conn)
    requires Fifo(c) && c.queue != []
    ensures c.queue[0].n < c.next
  {
    assert c.queued[|c.calls|] == c.queue[0].n;
  }

  lemma {:induction false} DispatchInv(c: Conn, net: Network)
    requires Between(c)
    ensures Inv(Dispatch(c, net))
    decreases |c.queue|
  {
    hide Count, Fifo, InOrder;
    if c.queue != [] {
      SendKeeps(c);
      var d := Send(c, c.queue[0]);
      match net(|c.sends|)
      case None => SameFacts(d, Armed(d, T1, 1));
      case Some(e) =>
        FinishKeeps(d, Failed(e));
        DispatchInv(Finish(d, Failed(e)), net);
    }
  }

  lemma TimeoutInv(c: Conn, net: Network)
    requires Inv(c) && c.timer.Some?
    ensures Inv(Timeout(c, net))
  {
    hide Count, Fifo, InOrder, Dispatch;
    var c0 := c.(timer := None, txc := c.txc + 1);
    SameFacts(c, c0);
    if c.txc + 1 > TXC {
      FinishKeeps(c0, Failed(ETIMEDOUT));
      DispatchInv(Finish(c0, Failed(ETIMEDOUT)), net);
    } else {
      SendKeeps(c0);
      var c1 := Send(c0, c.queue[0]);
      match net(|c.sends|)
      case None => SameFacts(c1, Armed(c1, Wait(c.txc), c.txc + 1));
      case Some(e) =>
        FinishKeeps(c1, Failed(e));
        DispatchInv(Finish(c1, Failed(e)), net);
    }
  }

  lemma SameFacts(c: Conn, d: Conn)
    requires d.queue == c.queue && d.calls == c.calls && d.queued == c.queued && d.sends == c.sends && d.next == c.next
    ensures Fifo(d) == Fifo(c) && InOrder(d) == InOrder(c)
  {
  }

  lemma ResponseInv(c: Conn, tid: nat, confid: nat, userid: nat, net: Network)
    requires Inv(c)
    ensures Inv(Response(c, tid, confid, userid, net))
  {
    hide Count, Fifo, InOrder, Dispatch;
    if Matches(c, tid, confid, userid) {
      var c0 := c.(timer := None);
      SameFacts(c, c0);
      FinishKeeps(c0, Answered);
      DispatchInv(Finish(c0, Answered), net);
    }
  }

  lemma RequestInv(c: Conn, confid: nat, userid: nat, encErr: Option<Error>, net: Network)
    requires Inv(c)
    ensures Inv(Request(c, confid, userid, encErr, net))
  {
    hide Count;
    var d := Request(c, confid, userid, encErr, net);
    assert Increasing(c.queued, c.next + 1);
    if encErr.None? && d.queue != c.queue {
      var r := d.queue[|c.queue|];
      assert ReqNs(c.queue + [r]) == ReqNs(c.queue) + [r.n];
      assert CallNs(c.calls) + (ReqNs(c.queue) + [r.n]) == c.queued + [r.n];
      CountZero(c.sends, r.n);
    }
    if d.sends != c.sends {
      CountZero(c.sends, c.next);
      forall n ensures Count(d.sends, n) == Count(c.sends, n) + if n == c.next then 1 else 0 {
        CountMore(c.sends, c.next, n);
      }
      forall i | 0 <= i < |c.calls| ensures c.calls[i].n < c.next {
        assert c.queued[i] == c.calls[i].n;
      }
    }
  }

  lemma StepInv(c: Conn, e: Event, net: Network)
    requires Inv(c)
    ensures Inv(Step(c, e, net))
  {
    hide Inv, Timeout, Response, Request;
    match e
    case Ask(confid, userid, encErr) => RequestInv(c, confid, userid, encErr, net);
    case Expire => if c.timer.Some? { TimeoutInv(c, net); }
    case Receive(tid, confid, userid) => ResponseInv(c, tid, confid, userid, net);
  }

  const IDLE := Conn([], 0, 0, None, 0, [], [], [])

  lemma {:induction false} RunInv(c: Conn, es: seq<Event>, net: Network)
    requires Inv(c)
    ensures Inv(Run(c, es, net))
    decreases |es|
  {
    hide Inv, Step;
    if es != [] {
      StepInv(c, es[0], net);
      RunInv(Step(c, es[0], net), es[1..], net);
    }
  }

  // ---------------------------------------------------------------- what it means

  /**
   In every run: the timer is armed exactly while a request waits; requests are called back in
   the order they were accepted, none twice, none skipped; the one under way has been sent txc
   times, those behind it never; a finished one at most four times.
   */
  lemma EveryRun(es: seq<Event>, net: Network)
    ensures var c := Run(IDLE, es, net);
            && (c.timer.Some? <==> c.queue != [])
            && CallNs(c.calls) + ReqNs(c.queue) == c.queued
            && (forall i, j :: 0 <= i < j < |c.queued| ==> c.queued[i] < c.queued[j])
            && (forall i :: 0 <= i < |c.queue| ==> Count(c.sends, c.queue[i].n) == if i == 0 then c.txc else 0)
            && (forall i :: 0 <= i < |c.calls| ==> 1 <= Count(c.sends, c.calls[i].n) <= 4)
            && (forall i, j :: 0 <= i < j < |c.sends| ==> c.sends[i] <= c.sends[j])
            && (c.queue != [] ==> 1 <= c.txc <= 4 && c.timer == Some(WAITS[c.txc - 1]))
  {
    hide Count, Step, Run, Wait;
    IdleInv();
    RunInv(IDLE, es, net);
    Doubling();
  }

  const WAITS: seq<nat> := [500, 1000, 2000, 4000]

  lemma Doubling()
    ensures forall k :: 0 <= k < 4 ==> Wait(k) == WAITS[k]
  {
    assert Wait(0) == 500 && Wait(1) == 1000 && Wait(2) == 2000 && Wait(3) == 4000;
  }

  lemma IdleInv()
    ensures Inv(IDLE)
  {
  }

  // ---------------------------------------------------------------- giving up

  /** A transport that never reports ETIMEDOUT itself. */
  ghost predicate Plain(net: Network) {
    forall k :: net(k) != Some(ETIMEDOUT)
  }

  ghost predicate GivenUp(c: Conn) {
    forall i :: 0 <= i < |c.calls| && c.calls[i].verdict == Failed(ETIMEDOUT) ==>
      Count(c.sends, c.calls[i].n) == 4
  }

  lemma SendGivenUp(c: Conn, n: nat)
    requires GivenUp(c) && forall i :: 0 <= i < |c.calls| ==> c.calls[i].n != n
    ensures GivenUp(c.(sends := c.sends + [n]))
  {
    hide Count;
    forall i | 0 <= i < |c.calls| ensures Count(c.sends + [n], c.calls[i].n) == Count(c.sends, c.calls[i].n) {
      CountMore(c.sends, n, c.calls[i].n);
    }
  }

  lemma {:induction false} DispatchGivenUp(c: Conn, net: Network)
    requires Between(c) && Plain(net) && GivenUp(c)
    ensures GivenUp(Dispatch(c, net))
    decreases |c.queue|
  {
    hide Count, Fifo, InOrder;
    if c.queue != [] {
      OthersThanHead(c);
      SendGivenUp(c, c.queue[0].n);
      SendKeeps(c);
      var d := Send(c, c.queue[0]);
      match net(|c.sends|)
      case None =>
      case Some(e) =>
        FinishKeeps(d, Failed(e));
        DispatchGivenUp(Finish(d, Failed(e)), net);
    }
  }

  lemma OthersThanHead(c: Conn)
    requires Fifo(c) && c.queue != []
    ensures forall i :: 0 <= i < |c.calls| ==> c.calls[i].n != c.queue[0].n
  {
    forall i | 0 <= i < |c.calls| ensures c.calls[i].n != c.queue[0].n {
      CallsBeforeQueue(c, i, 0);
    }
  }

  lemma StepGivenUp(c: Conn, e: Event, net: Network)
    requires Inv(c) && Plain(net) && GivenUp(c)
    ensures GivenUp(Step(c, e, net))
  {
    hide Count, Fifo, InOrder, Dispatch, Wait;
    match e
    case Ask(_, _, _) =>
      CallsOld(c);
      SendGivenUp(c, c.next);
    case Expire =>
      if c.timer.Some? {
        var c0 := c.(timer := None, txc := c.txc + 1);
        SameFacts(c, c0);
        OthersThanHead(c);
        SendGivenUp(c0, c.queue[0].n);
        if c.txc + 1 > TXC {
          FinishKeeps(c0, Failed(ETIMEDOUT));
          DispatchGivenUp(Finish(c0, Failed(ETIMEDOUT)), net);
        } else if net(|c.sends|).Some? {
          SendKeeps(c0);
          var c1, v := Send(c0, c.queue[0]), Failed(net(|c.sends|).value);
          FinishKeeps(c1, v);
          DispatchGivenUp(Finish(c1, v), net);
        }
      }
    case Receive(tid, confid, userid) =>
      if Matches(c, tid, confid, userid) {
        var c0 := c.(timer := None);
        SameFacts(c, c0);
        FinishKeeps(c0, Answered);
        DispatchGivenUp(Finish(c0, Answered), net);
      }
  }

  lemma CallsOld(c: Conn)
    requires Fifo(c)
    ensures forall i :: 0 <= i < |c.calls| ==> c.calls[i].n < c.next
  {
    forall i | 0 <= i < |c.calls| ensures c.calls[i].n < c.next {
      assert c.queued[i] == c.calls[i].n;
    }
  }

  /** A request is reported as timed out only after it has been transmitted four times. */
  lemma {:induction false} TimedOutAfterFour(c: Conn, es: seq<Event>, net: Network)
    requires Inv(c) && Plain(net) && GivenUp(c)
    ensures GivenUp(Run(c, es, net))
    decreases |es|
  {
    hide Inv, Step, GivenUp;
    if es != [] {
      StepInv(c, es[0], net);
      StepGivenUp(c, es[0], net);
      TimedOutAfterFour(Step(c, es[0], net), es[1..], net);
    }
  }

  /** How many timeouts are left before the queue must be empty. */
  function Remaining(c: Conn): (n: int) {
    if c.queue == [] then 0 else TXC * |c.queue| - c.txc + 1
  }

  lemma {:induction false} DispatchShrinks(c: Conn, net: Network)
    ensures Remaining(Dispatch(c, net)) <= TXC * |c.queue|
    decreases |c.queue|
  {
    if c.queue != [] && net(|c.sends|).Some? {
      DispatchShrinks(Finish(Send(c, c.queue[0]), Failed(net(|c.sends|).value)), net);
    }
  }

  lemma TimeoutShrinks(c: Conn, net: Network)
    requires Inv(c) && c.queue != []
    ensures Remaining(Timeout(c, net)) < Remaining(c)
  {
    hide Dispatch, Fifo, SendsOk, InOrder;
    var c0 := c.(timer := None, txc := c.txc + 1);
    if c.txc + 1 > TXC {
      DispatchShrinks(Finish(c0, Failed(ETIMEDOUT)), net);
    } else if net(|c.sends|).Some? {
      DispatchShrinks(Finish(Send(c0, c.queue[0]), Failed(net(|c.sends|).value)), net);
    }
  }

  function Expirations(n: nat): (es: seq<Event>)
    ensures |es| == n
  {
    if n == 0 then [] else [Expire] + Expirations(n - 1)
  }

  /** With no answers at all, every accepted request has been called back after four timeouts each. */
  lemma {:induction false} AllCalledBack(c: Conn, n: nat, net: Network)
    requires Inv(c) && Remaining(c) <= n
    ensures var d := Run(c, Expirations(n), net);
            d.queue == [] && CallNs(d.calls) == d.queued && d.queued == c.queued
    decreases n
  {
    hide Count, Timeout, SendsOk, InOrder;
    if n == 0 {
      assert c.queue == [];
      assert CallNs(c.calls) + [] == CallNs(c.calls);
    } else {
      var es := Expirations(n);
      assert es[1..] == Expirations(n - 1);
      StepInv(c, Expire, net);
      if c.queue != [] {
        TimeoutShrinks(c, net);
        TimeoutQueued(c, net);
      }
      AllCalledBack(Step(c, Expire, net), n - 1, net);
    }
  }

  lemma {:induction false} DispatchQueued(c: Conn, net: Network)
    ensures Dispatch(c, net).queued == c.queued
    decreases |c.queue|
  {
    if c.queue != [] && net(|c.sends|).Some? {
      DispatchQueued(Finish(Send(c, c.queue[0]), Failed(net(|c.sends|).value)), net);
    }
  }

  lemma TimeoutQueued(c: Conn, net: Network)
    requires c.queue != []
    ensures Timeout(c, net).queued == c.queued
  {
    hide Dispatch;
    var c0 := c.(timer := None, txc := c.txc + 1);
    DispatchQueued(Finish(c0, Failed(ETIMEDOUT)), net);
    if net(|c.sends|).Some? {
      DispatchQueued(Finish(Send(c0, c.queue[0]), Failed(net(|c.sends|).value)), net);
    }
  }

  // ---------------------------------------------------------------- the handlers as they run

  /** struct bfcp_conn, as far as client transactions go. */
  class Client {
    const net: Network
    var ctransl: seq<Req>
    var txc: nat
    var tid: nat
    var tmr1: Option<nat>
    var attempts: nat
    var next: nat
    ghost var sends: seq<nat>
    ghost var calls: seq<Call>
    ghost var queued: seq<nat>

    ghost function St(): Conn
      reads this
    {
      Conn(ctransl, txc, tid, tmr1, next, sends, calls, queued)
    }

    ghost predicate Valid()
      reads this
    {
      attempts == |sends|
    }

    constructor (net: Network)
      ensures this.net == net && Valid() && St() == IDLE
    {
      this.net := net;
      ctransl, txc, tid, tmr1, attempts, next := [], 0, 0, None, 0, 0;
      sends, calls, queued := [], [], [];
    }

    /** bfcp_send. */
    method SendReq(r: Req) returns (err: Option<Error>)
      requires Valid()
      modifies this`attempts, this`sends
      ensures Valid() && err == net(|old(sends)|) && St() == Send(old(St()), r)
    {
      err := net(attempts);
      attempts, sends := attempts + 1, sends + [r.n];
    }

    /** resph and mem_deref of the first transaction. */
    method Complete(v: Verdict)
      requires ctransl != []
      modifies this`ctransl, this`calls
      ensures St() == Finish(old(St()), v)
    {
      calls := calls + [Call(ctransl[0].n, v)];
      ctransl := ctransl[1..];
    }

    method DispatchLoop()
      requires Valid()
      modifies this
      ensures Valid() && St() == Dispatch(old(St()), net)
    {
      while ctransl != []
        invariant Valid() && Dispatch(St(), net) == Dispatch(old(St()), net)
        decreases |ctransl|
      {
        var err := SendReq(ctransl[0]);
        if err.Some? {
          Complete(Failed(err.value));
          continue;
        }
        tmr1 := Some(T1);
        txc := 1;
        break;
      }
    }

    method TmrHandler()
      requires Valid()
      modifies this
      ensures Valid() && St() == Timeout(old(St()), net)
    {
      hide Dispatch;
      tmr1 := None;
      if ctransl == [] {
        return;
      }
      var timeout := Wait(txc);
      txc := txc + 1;
      if txc > TXC {
        Complete(Failed(ETIMEDOUT));
        DispatchLoop();
        return;
      }
      var err := SendReq(ctransl[0]);
      if err.Some? {
        Complete(Failed(err.value));
        DispatchLoop();
        return;
      }
      tmr1 := Some(timeout);
    }

    method HandleResponse(rtid: nat, confid: nat, userid: nat) returns (handled: bool)
      requires Valid()
      modifies this
      ensures Valid() && handled == Matches(old(St()), rtid, confid, userid)
      ensures St() == Response(old(St()), rtid, confid, userid, net)
    {
      hide Dispatch;
      if ctransl == [] || ctransl[0].tid != rtid || ctransl[0].confid != confid || ctransl[0].userid != userid {
        return false;
      }
      tmr1 := None;
      Complete(Answered);
      DispatchLoop();
      return true;
    }

    method VRequest(confid: nat, userid: nat, encErr: Option<Error>) returns (err: Option<Error>)
      requires Valid()
      modifies this
      ensures Valid() && St() == Request(old(St()), confid, userid, encErr, net)
      ensures err == RequestError(old(St()), encErr, net)
    {
      if tid == 0 {
        tid := 1;
      }
      var ct := Req(next, tid, confid, userid);
      tid, next := (tid + 1) % 0x1_0000, next + 1;
      if encErr.Some? {
        return encErr;
      }
      if ctransl == [] {
        err := SendReq(ct);
        if err.Some? {
          return;
        }
        tmr1 := Some(T1);
        txc := 1;
      }
      ctransl, queued := ctransl + [ct], queued + [ct.n];
      return None;
    }
  }
}
