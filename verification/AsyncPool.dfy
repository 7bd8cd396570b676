/**
 The asynchronous worker pool of async.c as a protocol: worker threads, the main loop and
 submitting threads interleave at the granularity of their critical sections. What is proved
 holds in every state of every interleaving.
 */
module AsyncPool {
  import opened Bytes

  // ---------------------------------------------------------------- state

  /** struct async_work: the submission it serves, and which of its handlers are still set. */
  datatype Work = Work(sub: nat, workh: bool, cb: bool, err: int, id: int)

  /** A worker between its critical sections. */
  datatype Worker = Idle | Took(item: nat) | Ran(item: nat) | Exited

  /** The main thread: in its loop, inside queueh before and after the callback, or shutting down. */
  datatype Main = Loop | Calling(item: nat, sub: nat, cb: bool, err: int) | Called(item: nat) | Stopping | Dead

  /** What a callback is told: the value of a work handler, or that it was cancelled by shutdown. */
  datatype Verdict = Value(err: int) | Cancelled

  datatype Call = Call(sub: nat, verdict: Verdict)

  /**
   What a submission asked for, the work item that was given to it, how many submissions came before
   it, and the one whose work handler had been the last to run on that item, if any had.
   */
  datatype Submission = Submission(hasWork: bool, hasCb: bool, item: nat, id: int, num: nat, prev: Option<nat>)

  /**
   struct re_async and its history: submissions, results of work handlers, the submission whose
   handler was the last to run on each item, submissions cancelled while their callback was still
   due, and the callbacks made.
   */
  datatype State = State(
    free: seq<nat>, work: seq<nat>, cur: seq<nat>,
    items: map<nat, Work>,
    workers: seq<Worker>,
    queue: seq<nat>,
    main: Main,
    run: bool,
    subs: map<nat, Submission>,
    results: map<nat, int>,
    ran: map<nat, nat>,
    dropped: set<nat>,
    calls: seq<Call>)

  /** One critical section, with what the outside world decides in it. */
  datatype Step =
    | Submit(item: nat, sub: nat, hasWork: bool, hasCb: bool, id: int)
    | Take(w: nat)
    | Run(w: nat, value: int)
    | Push(w: nat)
    | Exit(w: nat)
    | Dequeue
    | Callback
    | Release
    | Cancel(id: int)
    | Stop
    | Destroy

  // ---------------------------------------------------------------- list operations

  /** list_unlink of an element. */
  function Without(l: seq<nat>, x: nat): (r: seq<nat>) {
    if l == [] then [] else if l[0] == x then l[1..] else [l[0]] + Without(l[1..], x)
  }

  lemma {:induction false} WithoutCounts(l: seq<nat>, x: nat)
    ensures multiset(Without(l, x)) == multiset(l) - multiset{x}
  {
    if l != [] {
      assert l == [l[0]] + l[1..];
      if l[0] != x {
        WithoutCounts(l[1..], x);
      }
    }
  }

  /** re_async_cancel on one work item. */
  function CancelWork(w: Work): Work {
    w.(id := 0, workh := false, cb := false)
  }

  /** The elements of a list whose work has this id, and the others, in list order. */
  function Matching(l: seq<nat>, items: map<nat, Work>, id: int): (r: seq<nat>) {
    if l == [] then []
    else (if l[0] in items && items[l[0]].id == id then [l[0]] else []) + Matching(l[1..], items, id)
  }

  function NotMatching(l: seq<nat>, items: map<nat, Work>, id: int): (r: seq<nat>) {
    if l == [] then []
    else (if l[0] in items && items[l[0]].id == id then [] else [l[0]]) + NotMatching(l[1..], items, id)
  }

  lemma {:induction false} MatchingCounts(l: seq<nat>, items: map<nat, Work>, id: int)
    ensures multiset(Matching(l, items, id)) + multiset(NotMatching(l, items, id)) == multiset(l)
  {
    if l != [] {
      MatchingCounts(l[1..], items, id);
      assert l == [l[0]] + l[1..];
      Either(multiset{l[0]}, multiset(Matching(l[1..], items, id)), multiset(NotMatching(l[1..], items, id)));
      assert multiset(l) == multiset{l[0]} + multiset(l[1..]);
    }
  }

  lemma Either(one: multiset<nat>, m: multiset<nat>, n: multiset<nat>)
    ensures (one + m) + n == one + (m + n)
    ensures m + (one + n) == one + (m + n)
  {
  }

  lemma {:induction false} MatchingMembers(l: seq<nat>, items: map<nat, Work>, id: int)
    ensures forall i :: i in Matching(l, items, id) <==> i in l && i in items && items[i].id == id
  {
    if l != [] {
      MatchingMembers(l[1..], items, id);
    }
  }

  /** The calls that shutdown makes for one list: ECANCELED for every callback still set. */
  function CancelCalls(l: seq<nat>, items: map<nat, Work>): (r: seq<Call>) {
    if l == [] then []
    else (if l[0] in items && items[l[0]].cb then [Call(items[l[0]].sub, Cancelled)] else [])
         + CancelCalls(l[1..], items)
  }

  // ---------------------------------------------------------------- steps

  predicate AllExited(ws: seq<Worker>) {
    forall k :: 0 <= k < |ws| ==> ws[k].Exited?
  }

  predicate Enabled(s: State, step: Step) {
    match step
    case Submit(item, sub, _, _, _) =>
      // the head of the free list, or a new work item when that is empty
      && !s.main.Stopping? && !s.main.Dead? && sub !in s.subs
      && (if s.free == [] then item !in s.items else item == s.free[0] && item in s.items)
    case Take(w) => w < |s.workers| && s.workers[w].Idle? && s.run && s.work != []
    case Run(w, _) => w < |s.workers| && s.workers[w].Took? && s.workers[w].item in s.items
    case Push(w) => w < |s.workers| && s.workers[w].Ran?
    case Exit(w) => w < |s.workers| && s.workers[w].Idle? && !s.run
    case Dequeue => s.main.Loop? && s.queue != [] && s.queue[0] in s.items
    case Callback => s.main.Calling?
    case Release => s.main.Called?
    case Cancel(_) => !s.main.Stopping? && !s.main.Dead?
    case Stop => s.main.Loop?
    case Destroy => s.main.Stopping? && AllExited(s.workers)
  }

  /** The submission whose handler was the last to run on an item of the pool. */
  function LastOn(s: State, item: nat): (r: Option<nat>) {
    if item in s.ran then Some(s.ran[item]) else None
  }

  function Apply(s: State, step: Step): (r: State)
    requires Enabled(s, step)
  {
    match step
    case Submit(item, sub, hasWork, hasCb, id) =>
      var stale := if item in s.items then s.items[item].err else 0;
      s.(free := if s.free == [] then [] else s.free[1..],
         work := s.work + [item],
         items := s.items[item := Work(sub, hasWork, hasCb, stale, id)],
         subs := s.subs[sub := Submission(hasWork, hasCb, item, id, |s.subs|, LastOn(s, item))])
    case Take(w) =>
      s.(work := s.work[1..], cur := s.cur + [s.work[0]], workers := s.workers[w := Took(s.work[0])])
    case Run(w, value) =>
      var i := s.workers[w].item;
      var wk := s.items[i];
      if wk.workh then
        s.(items := s.items[i := wk.(err := value, workh := false)],
           results := s.results[wk.sub := value],
           ran := s.ran[i := wk.sub],
           workers := s.workers[w := Ran(i)])
      else s.(workers := s.workers[w := Ran(i)])
    case Push(w) =>
      s.(queue := s.queue + [s.workers[w].item], workers := s.workers[w := Idle])
    case Exit(w) => s.(workers := s.workers[w := Exited])
    case Dequeue =>
      var i := s.queue[0];
      var wk := s.items[i];
      s.(queue := s.queue[1..], items := s.items[i := wk.(cb := false)],
         main := Calling(i, wk.sub, wk.cb, wk.err))
    case Callback =>
      s.(main := Called(s.main.item),
         calls := s.calls + if s.main.cb then [Call(s.main.sub, Value(s.main.err))] else [])
    case Release =>
      s.(main := Loop, cur := Without(s.cur, s.main.item), free := s.free + [s.main.item])
    case Cancel(id) => CancelAll(s, id)
    case Stop => s.(main := Stopping, run := false)
    case Destroy =>
      s.(main := Dead, free := [], work := [], cur := [], queue := [], items := map[], ran := map[],
         calls := s.calls + CancelCalls(s.work + s.cur, s.items))
  }

  /** re_async_cancel: waiting work goes back to the free list, current work is left to queueh. */
  function CancelAll(s: State, id: int): (r: State) {
    var hit := Matching(s.work, s.items, id);
    var hits := hit + Matching(s.cur, s.items, id);
    s.(work := NotMatching(s.work, s.items, id),
       free := s.free + hit,
       items := map i | i in s.items :: if i in hits then CancelWork(s.items[i]) else s.items[i],
       dropped := s.dropped + set i | i in hits && i in s.items && s.items[i].cb :: s.items[i].sub)
  }

  // ---------------------------------------------------------------- invariant

  function HeldBy(w: Worker): multiset<nat> {
    if w.Took? || w.Ran? then multiset{w.item} else multiset{}
  }

  function Held(ws: seq<Worker>): multiset<nat> {
    if ws == [] then multiset{} else HeldBy(ws[0]) + Held(ws[1..])
  }

  function MainHolds(m: Main): multiset<nat> {
    if m.Calling? || m.Called? then multiset{m.item} else multiset{}
  }

  /** Every work item is in exactly one list, exactly once. */
  ghost predicate Partitioned(free: seq<nat>, work: seq<nat>, cur: seq<nat>, items: set<nat>) {
    multiset(free) + multiset(work) + multiset(cur) == multiset(items)
  }

  /** Every current item is with exactly one worker, or queued exactly once, or in queueh. */
  ghost predicate Handled(cur: seq<nat>, workers: seq<Worker>, queue: seq<nat>, main: Main) {
    multiset(cur) == Held(workers) + multiset(queue) + MainHolds(main)
  }

  ghost predicate Clear(items: map<nat, Work>, i: nat) {
    i in items && !items[i].cb && !items[i].workh
  }

  ghost predicate Finished(items: map<nat, Work>, i: nat) {
    i in items && !items[i].workh
  }

  /** Free items and the item in queueh have no handlers; items that ran have no work handler. */
  ghost predicate FreeOk(free: seq<nat>, items: map<nat, Work>) {
    forall i :: i in free ==> Clear(items, i)
  }

  ghost predicate MainOk(main: Main, items: map<nat, Work>) {
    && (main.Calling? || main.Called? ==> Clear(items, main.item))
    && (main.Dead? ==> items == map[])
  }

  ghost predicate QueueOk(queue: seq<nat>, items: map<nat, Work>) {
    forall i :: i in queue ==> Finished(items, i)
  }

  ghost predicate RanOk(workers: seq<Worker>, items: map<nat, Work>) {
    forall k :: 0 <= k < |workers| && workers[k].Ran? ==> Finished(items, workers[k].item)
  }

  /** A set handler belongs to the submission that this item was given to, and has not run. */
  ghost predicate HomeOk(items: map<nat, Work>, subs: map<nat, Submission>, results: map<nat, int>) {
    && (forall i :: i in items && (items[i].cb || items[i].workh) ==>
          items[i].sub in subs && subs[items[i].sub].item == i && subs[items[i].sub].id == items[i].id)
    && (forall i :: i in items && items[i].workh ==>
          items[i].sub in subs && subs[items[i].sub].hasWork && items[i].sub !in results)
    && results.Keys <= subs.Keys
  }

  ghost predicate CalledBefore(calls: seq<Call>, t: nat) {
    exists k :: 0 <= k < |calls| && calls[k].sub == t
  }

  /** A callback that may still run: asked for, not dropped and not run yet. */
  ghost predicate Due(subs: map<nat, Submission>, dropped: set<nat>, calls: seq<Call>, t: nat) {
    t in subs && subs[t].hasCb && t !in dropped && !CalledBefore(calls, t)
  }

  /** A work item that had been used before: what the last handler on it returned; a new one: 0. */
  ghost predicate Leftover(prev: Option<nat>, results: map<nat, int>, err: int) {
    if prev.None? then err == 0 else prev.value in results && results[prev.value] == err
  }

  /**
   The value for a submission is what its work handler returned. Without a work handler it is what
   its work item was left with.
   */
  ghost predicate Carries(subs: map<nat, Submission>, results: map<nat, int>, t: nat, err: int) {
    t in subs ==>
      if subs[t].hasWork then t in results && results[t] == err else Leftover(subs[t].prev, results, err)
  }

  /** The work handler of submission u ran on item i. */
  ghost predicate RanOn(subs: map<nat, Submission>, results: map<nat, int>, u: nat, i: nat) {
    u in subs && subs[u].item == i && subs[u].hasWork && u in results
  }

  /** The error value of an item is the last result on it. */
  ghost predicate HistoryOk(items: map<nat, Work>, subs: map<nat, Submission>, results: map<nat, int>, ran: map<nat, nat>) {
    && (forall i :: i in ran ==> i in items && RanOn(subs, results, ran[i], i) && results[ran[i]] == items[i].err)
    && (forall i :: i in items && i !in ran ==> items[i].err == 0)
    && (forall t :: t in subs && subs[t].prev.Some? ==> RanOn(subs, results, subs[t].prev.value, subs[t].item))
  }

  /** What a callback is waiting for sits in its item until queueh takes it. */
  ghost predicate PendingOk(items: map<nat, Work>, subs: map<nat, Submission>, results: map<nat, int>,
                            dropped: set<nat>, calls: seq<Call>, main: Main) {
    forall i :: i in items && items[i].cb ==>
      && Due(subs, dropped, calls, items[i].sub)
      && (!items[i].workh ==> Carries(subs, results, items[i].sub, items[i].err))
      && !(main.Calling? && main.cb && main.sub == items[i].sub)
  }

  ghost predicate CallingOk(subs: map<nat, Submission>, results: map<nat, int>,
                            dropped: set<nat>, calls: seq<Call>, main: Main) {
    main.Calling? && main.cb ==>
      Due(subs, dropped, calls, main.sub) && Carries(subs, results, main.sub, main.err)
  }

  /** No due callback is lost. */
  ghost predicate NoneLost(items: map<nat, Work>, subs: map<nat, Submission>,
                           dropped: set<nat>, calls: seq<Call>, main: Main) {
    forall t :: t in subs && Due(subs, dropped, calls, t) ==>
      || (main.Calling? && main.cb && main.sub == t)
      || (subs[t].item in items && items[subs[t].item].cb && items[subs[t].item].sub == t)
  }

  /** Callbacks made: at most one per submission, none for a dropped one, each with its value. */
  ghost predicate CallsOk(calls: seq<Call>, subs: map<nat, Submission>, results: map<nat, int>, dropped: set<nat>) {
    && dropped <= subs.Keys
    && OncePerSub(calls)
    && (forall k :: 0 <= k < |calls| ==>
          && calls[k].sub in subs && subs[calls[k].sub].hasCb && calls[k].sub !in dropped
          && (calls[k].verdict.Value? ==> Carries(subs, results, calls[k].sub, calls[k].verdict.err)))
  }

  ghost predicate ListsOk(s: State) {
    Partitioned(s.free, s.work, s.cur, s.items.Keys) && Handled(s.cur, s.workers, s.queue, s.main)
  }

  ghost predicate FieldsOk(s: State) {
    && FreeOk(s.free, s.items) && MainOk(s.main, s.items)
    && QueueOk(s.queue, s.items) && RanOk(s.workers, s.items)
    && HomeOk(s.items, s.subs, s.results)
  }

  ghost predicate CallbacksOk(s: State) {
    && PendingOk(s.items, s.subs, s.results, s.dropped, s.calls, s.main)
    && CallingOk(s.subs, s.results, s.dropped, s.calls, s.main)
    && NoneLost(s.items, s.subs, s.dropped, s.calls, s.main)
    && CallsOk(s.calls, s.subs, s.results, s.dropped)
  }

  ghost predicate Inv(s: State) {
    ListsOk(s) && FieldsOk(s) && CallbacksOk(s) && HistoryOk(s.items, s.subs, s.results, s.ran)
  }

  /** re_async_alloc with n workers: n idle workers and n preallocated work items. */
  ghost predicate Init(s: State, n: nat) {
    && |s.workers| == n && (forall k :: 0 <= k < n ==> s.workers[k].Idle?)
    && s.work == [] && s.cur == [] && s.queue == [] && s.main.Loop? && s.run
    && multiset(s.free) == multiset(s.items.Keys)
    && (forall i :: i in s.items ==> !s.items[i].cb && !s.items[i].workh && s.items[i].err == 0)
    && s.subs == map[] && s.results == map[] && s.ran == map[] && s.dropped == {} && s.calls == []
  }

  lemma {:induction false} HeldIdle(ws: seq<Worker>)
    requires forall k :: 0 <= k < |ws| ==> ws[k].Idle?
    ensures Held(ws) == multiset{}
  {
    if ws != [] {
      HeldIdle(ws[1..]);
    }
  }

  lemma InitInv(s: State, n: nat)
    requires Init(s, n)
    ensures Inv(s)
  {
    HeldIdle(s.workers);
    forall i | i in s.free ensures Clear(s.items, i) {
      assert i in multiset(s.free);
      assert i in multiset(s.items.Keys);
    }
  }

  // ---------------------------------------------------------------- every step keeps it

  lemma {:induction false} HeldUpdate(ws: seq<Worker>, k: nat, w: Worker)
    requires k < |ws|
    ensures Held(ws[k := w]) + HeldBy(ws[k]) == Held(ws) + HeldBy(w)
  {
    var ws' := ws[k := w];
    if k == 0 {
      assert ws'[1..] == ws[1..];
      Swap(HeldBy(w), Held(ws[1..]), HeldBy(ws[0]));
    } else {
      HeldUpdate(ws[1..], k - 1, w);
      assert ws'[1..] == ws[1..][k - 1 := w];
      Shift(HeldBy(ws[0]), Held(ws'[1..]), HeldBy(ws[k]), Held(ws[1..]), HeldBy(w));
    }
  }

  lemma Swap(a: multiset<nat>, b: multiset<nat>, c: multiset<nat>)
    ensures a + b + c == c + b + a
  {
  }

  lemma Shift(a: multiset<nat>, b: multiset<nat>, c: multiset<nat>, d: multiset<nat>, e: multiset<nat>)
    requires b + c == d + e
    ensures a + b + c == a + d + e
  {
    assert a + b + c == a + (b + c);
    assert a + d + e == a + (d + e);
  }

  /** A worker picks up an item, puts it down, or keeps what it has. */
  lemma HeldChange(ws: seq<Worker>, k: nat, w: Worker)
    requires k < |ws|
    ensures var ws' := ws[k := w];
            && (HeldBy(ws[k]) == multiset{} ==> Held(ws') == Held(ws) + HeldBy(w))
            && (HeldBy(w) == multiset{} ==> Held(ws) == Held(ws') + HeldBy(ws[k]))
            && (HeldBy(ws[k]) == HeldBy(w) ==> Held(ws') == Held(ws))
  {
    hide Held, HeldBy;
    HeldUpdate(ws, k, w);
    var ws' := ws[k := w];
    assert Held(ws') + multiset{} == Held(ws') && Held(ws) + multiset{} == Held(ws);
    if HeldBy(ws[k]) == HeldBy(w) {
      Cancelling(Held(ws'), Held(ws), HeldBy(w));
    }
  }

  lemma Cancelling(a: multiset<nat>, b: multiset<nat>, c: multiset<nat>)
    requires a + c == b + c
    ensures a == b
  {
    forall x ensures a[x] == b[x] {
      assert (a + c)[x] == a[x] + c[x] && (b + c)[x] == b[x] + c[x];
    }
  }

  /** Membership in one list excludes the others. */
  lemma OneList(s: State, i: nat)
    requires ListsOk(s)
    ensures i in s.free || i in s.work || i in s.cur <==> i in s.items
    ensures i in s.free ==> i !in s.work && i !in s.cur
    ensures i in s.work ==> i !in s.cur
    ensures multiset(s.free)[i] <= 1 && multiset(s.work)[i] <= 1 && multiset(s.cur)[i] <= 1
  {
    assert i in s.free <==> i in multiset(s.free);
    assert i in s.work <==> i in multiset(s.work);
    assert i in s.cur <==> i in multiset(s.cur);
    assert (multiset(s.free) + multiset(s.work) + multiset(s.cur))[i] == multiset(s.items.Keys)[i];
    assert multiset(s.items.Keys)[i] <= 1;
  }

  /** Steps that keep the error values keep the history. */
  lemma SameHistory(items: map<nat, Work>, items': map<nat, Work>, subs: map<nat, Submission>, results: map<nat, int>, ran: map<nat, nat>)
    requires HistoryOk(items, subs, results, ran)
    requires items'.Keys == items.Keys && forall i :: i in items' ==> items'[i].err == items[i].err
    ensures HistoryOk(items', subs, results, ran)
  {
    hide RanOn;
  }

  lemma ForgottenHistory(items: map<nat, Work>, subs: map<nat, Submission>, results: map<nat, int>, ran: map<nat, nat>)
    requires HistoryOk(items, subs, results, ran)
    ensures HistoryOk(map[], subs, results, map[])
  {
  }

  lemma KeepTake(s: State, step: Step)
    requires Inv(s) && step.Take? && Enabled(s, step)
    ensures Inv(Apply(s, step))
  {
    hide HistoryOk, PendingOk, CallingOk, NoneLost, CallsOk, FreeOk, MainOk, QueueOk, HomeOk, Held;
    var i := s.work[0];
    HeldChange(s.workers, step.w, Took(i));
    assert s.work == [i] + s.work[1..];
    Moved(multiset(s.work[1..]), multiset(s.cur), multiset{i});
    assert Partitioned(s.free, s.work[1..], s.cur + [i], s.items.Keys) by {
      Shift(multiset(s.free), multiset(s.work[1..]), multiset(s.cur + [i]), multiset(s.work), multiset(s.cur));
    }
    Gained(multiset(s.cur), Held(s.workers), multiset(s.queue), MainHolds(s.main), multiset{i});
  }

  lemma Moved(a: multiset<nat>, b: multiset<nat>, x: multiset<nat>)
    ensures a + (b + x) == (x + a) + b
  {
  }

  /** An item joins the current list, and one of the parties that handle it. */
  lemma Gained(cur: multiset<nat>, a: multiset<nat>, b: multiset<nat>, c: multiset<nat>, x: multiset<nat>)
    requires cur == a + b + c
    ensures cur + x == (a + x) + b + c
    ensures cur + x == a + (b + x) + c
    ensures cur + x == a + b + (c + x)
  {
  }

  /** An item is passed from one party to another. */
  lemma Passed(a: multiset<nat>, b: multiset<nat>, c: multiset<nat>, x: multiset<nat>)
    ensures (a + x) + b + c == a + (b + x) + c
    ensures a + (x + b) + c == a + b + (c + x)
  {
  }

  lemma KeepPush(s: State, step: Step)
    requires Inv(s) && step.Push? && Enabled(s, step)
    ensures Inv(Apply(s, step))
  {
    hide HistoryOk, PendingOk, CallingOk, NoneLost, CallsOk, FreeOk, MainOk, HomeOk, Held;
    var i := s.workers[step.w].item;
    HeldChange(s.workers, step.w, Idle);
    Passed(Held(s.workers[step.w := Idle]), multiset(s.queue), MainHolds(s.main), multiset{i});
    assert multiset(s.queue + [i]) == multiset(s.queue) + multiset{i};
  }

  lemma KeepExit(s: State, step: Step)
    requires Inv(s) && step.Exit? && Enabled(s, step)
    ensures Inv(Apply(s, step))
  {
    hide HistoryOk, PendingOk, CallingOk, NoneLost, CallsOk, FreeOk, MainOk, QueueOk, HomeOk, Held;
    HeldChange(s.workers, step.w, Exited);
  }

  lemma KeepStop(s: State, step: Step)
    requires Inv(s) && step.Stop? && Enabled(s, step)
    ensures Inv(Apply(s, step))
  {
    hide HistoryOk, CallsOk, FreeOk, QueueOk, RanOk, HomeOk, Partitioned, Held, Due, Carries;
  }

  lemma KeepRelease(s: State, step: Step)
    requires Inv(s) && step.Release? && Enabled(s, step)
    ensures Inv(Apply(s, step))
  {
    hide HistoryOk, ListsOk, CallsOk, QueueOk, RanOk, HomeOk, Due, Carries, Without;
    ReleaseLists(s, step);
  }

  lemma ReleaseLists(s: State, step: Step)
    requires Inv(s) && step.Release? && Enabled(s, step)
    ensures ListsOk(Apply(s, step))
  {
    hide HistoryOk, FieldsOk, CallbacksOk, Partitioned, Handled, Without;
    ReleaseParts(s.free, s.work, s.cur, s.items.Keys, s.workers, s.queue, s.main);
  }

  lemma ReleaseParts(free: seq<nat>, work: seq<nat>, cur: seq<nat>, items: set<nat>, workers: seq<Worker>, queue: seq<nat>, main: Main)
    requires Partitioned(free, work, cur, items) && Handled(cur, workers, queue, main) && main.Called?
    ensures Partitioned(free + [main.item], work, Without(cur, main.item), items)
    ensures Handled(Without(cur, main.item), workers, queue, Loop)
  {
    hide Held, Without;
    var i := main.item;
    WithoutCounts(cur, i);
    Released(multiset(free), multiset(work), multiset(cur), multiset(Without(cur, i)), Held(workers) + multiset(queue), i);
    assert multiset(free + [i]) == multiset(free) + multiset{i};
  }

  /** An item leaves the current list and the handler that held it, for the free list. */
  lemma Released(free: multiset<nat>, work: multiset<nat>, cur: multiset<nat>, rest: multiset<nat>,
                 others: multiset<nat>, i: nat)
    requires cur == others + multiset{i} && rest == cur - multiset{i}
    ensures (free + multiset{i}) + work + rest == free + work + cur
    ensures rest == others + multiset{}
  {
    assert rest == others;
    assert cur == rest + multiset{i};
  }

  lemma KeepCallback(s: State, step: Step)
    requires Inv(s) && step.Callback? && Enabled(s, step)
    ensures Inv(Apply(s, step))
  {
    hide HistoryOk, FreeOk, QueueOk, RanOk, HomeOk, Held, Carries, CalledBefore;
    var s' := Apply(s, step);
    forall t ensures CalledBefore(s'.calls, t) <==> CalledBefore(s.calls, t) || (s.main.cb && s.main.sub == t) {
      CalledMore(s.calls, Call(s.main.sub, Value(s.main.err)), t);
    }
    if s.main.cb {
      NotCalled(s.calls, s.main.sub);
    }
  }

  lemma CalledMore(calls: seq<Call>, c: Call, t: nat)
    ensures CalledBefore(calls + [c], t) <==> CalledBefore(calls, t) || c.sub == t
    ensures CalledBefore(calls + [], t) <==> CalledBefore(calls, t)
  {
    assert calls + [] == calls;
    assert (calls + [c])[|calls|] == c;
    if CalledBefore(calls, t) {
      var k :| 0 <= k < |calls| && calls[k].sub == t;
      assert (calls + [c])[k].sub == t;
    }
  }

  lemma NotCalled(calls: seq<Call>, t: nat)
    requires !CalledBefore(calls, t)
    ensures forall k :: 0 <= k < |calls| ==> calls[k].sub != t
  {
  }

  lemma KeepSubmit(s: State, step: Step)
    requires Inv(s) && step.Submit? && Enabled(s, step)
    ensures Inv(Apply(s, step))
  {
    hide ListsOk, FieldsOk, CallbacksOk, HistoryOk, Apply, Enabled;
    SubmitLists(s, step);
    SubmitFields(s, step);
    SubmitCallbacks(s, step);
    SubmitHistory(s, step);
  }

  lemma SubmitLists(s: State, step: Step)
    requires Inv(s) && step.Submit? && Enabled(s, step)
    ensures ListsOk(Apply(s, step))
  {
    hide HistoryOk, FieldsOk, CallbacksOk, Partitioned, Handled, Apply;
    SubmitsTo(s, step);
    if s.free != [] {
      ReuseParts(s.free, s.work, s.cur, s.items.Keys);
    } else {
      NewParts(s.work, s.cur, s.items.Keys, step.item);
    }
  }

  /** The lists after a submission. */
  lemma SubmitsTo(s: State, step: Step)
    requires step.Submit? && Enabled(s, step)
    ensures var s' := Apply(s, step);
            && s'.free == (if s.free == [] then [] else s.free[1..]) && s'.work == s.work + [step.item] && s'.cur == s.cur
            && s'.items.Keys == (if s.free == [] then s.items.Keys + {step.item} else s.items.Keys)
            && s'.workers == s.workers && s'.queue == s.queue && s'.main == s.main
  {
    hide LastOn;
    if s.free != [] {
      assert Apply(s, step).items.Keys == s.items.Keys;
    }
  }

  lemma ReuseParts(free: seq<nat>, work: seq<nat>, cur: seq<nat>, items: set<nat>)
    requires Partitioned(free, work, cur, items) && free != []
    ensures Partitioned(free[1..], work + [free[0]], cur, items)
  {
    var i := free[0];
    assert free == [i] + free[1..];
    assert multiset(free) == multiset{i} + multiset(free[1..]);
    assert multiset(work + [i]) == multiset(work) + multiset{i};
    Moved(multiset(free[1..]), multiset(work), multiset{i});
  }

  lemma NewParts(work: seq<nat>, cur: seq<nat>, items: set<nat>, i: nat)
    requires Partitioned([], work, cur, items) && i !in items
    ensures Partitioned([], work + [i], cur, items + {i})
  {
    assert multiset(work + [i]) == multiset(work) + multiset{i};
    assert multiset(items + {i}) == multiset(items) + multiset{i};
    NewItem(multiset([]), multiset(work), multiset(cur), multiset{i});
  }

  lemma NewItem(a: multiset<nat>, b: multiset<nat>, c: multiset<nat>, x: multiset<nat>)
    ensures a + (b + x) + c == a + b + c + x
  {
  }

  lemma {:induction false} HeldMember(ws: seq<Worker>, k: nat)
    requires k < |ws|
    ensures HeldBy(ws[k]) <= Held(ws)
  {
    if k > 0 {
      HeldMember(ws[1..], k - 1);
    }
  }

  /** Only current items are with a worker, in the queue or in queueh. */
  lemma InCur(s: State)
    requires ListsOk(s)
    ensures forall i :: i in s.queue ==> i in s.cur
    ensures forall k :: 0 <= k < |s.workers| && (s.workers[k].Took? || s.workers[k].Ran?) ==> s.workers[k].item in s.cur
    ensures s.main.Calling? || s.main.Called? ==> s.main.item in s.cur
  {
    hide Held;
    forall i | i in s.queue ensures i in s.cur {
      assert i in multiset(s.queue);
      assert i in multiset(s.cur);
    }
    forall k | 0 <= k < |s.workers| && (s.workers[k].Took? || s.workers[k].Ran?) ensures s.workers[k].item in s.cur {
      HeldMember(s.workers, k);
      assert s.workers[k].item in HeldBy(s.workers[k]);
      assert s.workers[k].item in multiset(s.cur);
    }
    if s.main.Calling? || s.main.Called? {
      assert s.main.item in MainHolds(s.main);
      assert s.main.item in multiset(s.cur);
    }
  }

  /** Items that are not touched keep their handlers, and so do those that lose some. */
  lemma UpdateItem(items: map<nat, Work>, i: nat, w: Work)
    ensures forall j :: j != i && Clear(items, j) ==> Clear(items[i := w], j)
    ensures forall j :: j != i && Finished(items, j) ==> Finished(items[i := w], j)
    ensures !w.workh ==> Finished(items[i := w], i)
    ensures !w.workh && !w.cb ==> Clear(items[i := w], i)
  {
  }

  lemma SubmitFields(s: State, step: Step)
    requires Inv(s) && step.Submit? && Enabled(s, step)
    ensures FieldsOk(Apply(s, step))
  {
    hide HistoryOk, Held, CallbacksOk, Clear, Finished, HomeOk;
    var s', i := Apply(s, step), step.item;
    OneList(s, i);
    InCur(s);
    if s.free != [] {
      HeadOnce(s.free);
    }
    UpdateItem(s.items, i, s'.items[i]);
    assert forall j :: j in s'.free ==> j in s.free && j != i;
    SubmitHome(s, step);
  }

  lemma SubmitHome(s: State, step: Step)
    requires Inv(s) && step.Submit? && Enabled(s, step)
    ensures HomeOk(Apply(s, step).items, Apply(s, step).subs, Apply(s, step).results)
  {
    hide HistoryOk, ListsOk, CallbacksOk;
  }

  lemma HeadOnce(l: seq<nat>)
    requires l != [] && multiset(l)[l[0]] <= 1
    ensures l[0] !in l[1..]
  {
    assert l == [l[0]] + l[1..];
    assert multiset(l)[l[0]] == 1 + multiset(l[1..])[l[0]];
  }

  /** What a submission changes, and what not. */
  lemma SubmitIs(s: State, step: Step)
    requires step.Submit? && Enabled(s, step)
    ensures var s' := Apply(s, step);
            && s'.work == s.work + [step.item] && step.sub !in s.subs && step.item in s'.items && step.sub in s'.subs
            && s'.items == s.items[step.item := s'.items[step.item]] && s'.items[step.item].sub == step.sub
            && s'.items[step.item].cb == step.hasCb && s'.items[step.item].workh == step.hasWork
            && s'.subs == s.subs[step.sub := s'.subs[step.sub]] && s'.subs[step.sub].num == |s.subs|
            && s'.subs[step.sub].hasCb == step.hasCb && s'.subs[step.sub].hasWork == step.hasWork
            && s'.subs[step.sub].item == step.item
            && s'.results == s.results && s'.dropped == s.dropped && s'.calls == s.calls && s'.main == s.main
  {
    hide LastOn;
  }

  lemma SubmitCallbacks(s: State, step: Step)
    requires Inv(s) && step.Submit? && Enabled(s, step)
    ensures CallbacksOk(Apply(s, step))
  {
    hide ListsOk, FieldsOk, HistoryOk, Carries, CalledBefore, Apply, Enabled, PendingOk, CallingOk, NoneLost, CallsOk, Due;
    var s', i, t := Apply(s, step), step.item, step.sub;
    SubmitIs(s, step);
    SubmitFinds(s, step);
    SubmitLeftover(s, step);
    NewNotCalled(s, t);
    NewNotDue(s.subs, s.dropped, s.calls, t);
    SubmitCalls(s, t, s'.subs[t]);
    SubmitPending(s, i, s'.items[i], t, s'.subs[t]);
    SubmitNoneLost(s, i, s'.items[i], t, s'.subs[t]);
  }

  /** The item that a submission gets has no handlers. */
  lemma SubmitFinds(s: State, step: Step)
    requires Inv(s) && step.Submit? && Enabled(s, step)
    ensures step.item in s.items ==> Clear(s.items, step.item)
    ensures step.sub !in s.dropped
    ensures HomeOk(s.items, s.subs, s.results)
  {
    hide ListsOk, QueueOk, RanOk, HistoryOk, PendingOk, CallingOk, NoneLost, Clear;
  }

  lemma NewNotDue(subs: map<nat, Submission>, dropped: set<nat>, calls: seq<Call>, t: nat)
    requires t !in subs
    ensures !Due(subs, dropped, calls, t)
  {
  }

  /** A new submission does not change whether another is due, or its value. */
  lemma OthersSame(s: State, t: nat, v: Submission, u: nat, err: int)
    requires t !in s.subs && u in s.subs
    ensures Due(s.subs[t := v], s.dropped, s.calls, u) == Due(s.subs, s.dropped, s.calls, u)
    ensures Carries(s.subs[t := v], s.results, u, err) == Carries(s.subs, s.results, u, err)
  {
    hide CalledBefore;
  }

  lemma SubmitCalls(s: State, t: nat, v: Submission)
    requires t !in s.subs && CallsOk(s.calls, s.subs, s.results, s.dropped) && CallingOk(s.subs, s.results, s.dropped, s.calls, s.main)
    ensures CallsOk(s.calls, s.subs[t := v], s.results, s.dropped)
    ensures CallingOk(s.subs[t := v], s.results, s.dropped, s.calls, s.main)
    ensures !(s.main.Calling? && s.main.cb && s.main.sub == t)
  {
    hide Carries, Due;
    NewNotDue(s.subs, s.dropped, s.calls, t);
    forall k | 0 <= k < |s.calls| && s.calls[k].verdict.Value?
      ensures Carries(s.subs[t := v], s.results, s.calls[k].sub, s.calls[k].verdict.err)
    {
      OthersSame(s, t, v, s.calls[k].sub, s.calls[k].verdict.err);
    }
    if s.main.Calling? && s.main.cb {
      assert s.main.sub in s.subs by { DueKnown(s.subs, s.dropped, s.calls, s.main.sub); }
      OthersSame(s, t, v, s.main.sub, s.main.err);
    }
  }

  lemma DueKnown(subs: map<nat, Submission>, dropped: set<nat>, calls: seq<Call>, t: nat)
    requires Due(subs, dropped, calls, t)
    ensures t in subs
  {
  }

  lemma SubmitPending(s: State, i: nat, w: Work, t: nat, v: Submission)
    requires PendingOk(s.items, s.subs, s.results, s.dropped, s.calls, s.main) && HomeOk(s.items, s.subs, s.results)
    requires t !in s.subs && t !in s.dropped && !CalledBefore(s.calls, t) && w.sub == t && v.hasCb == w.cb
    requires !w.workh ==> Carries(s.subs[t := v], s.results, t, w.err)
    requires !(s.main.Calling? && s.main.cb && s.main.sub == t)
    ensures PendingOk(s.items[i := w], s.subs[t := v], s.results, s.dropped, s.calls, s.main)
  {
    hide Carries, CalledBefore;
    forall j | j in s.items && j != i && s.items[j].cb
      ensures Due(s.subs[t := v], s.dropped, s.calls, s.items[j].sub)
      ensures !s.items[j].workh ==> Carries(s.subs[t := v], s.results, s.items[j].sub, s.items[j].err)
    {
      OthersSame(s, t, v, s.items[j].sub, s.items[j].err);
    }
  }

  lemma SubmitNoneLost(s: State, i: nat, w: Work, t: nat, v: Submission)
    requires NoneLost(s.items, s.subs, s.dropped, s.calls, s.main) && t !in s.subs
    requires i in s.items ==> Clear(s.items, i)
    requires w.sub == t && w.cb == v.hasCb && v.item == i
    ensures NoneLost(s.items[i := w], s.subs[t := v], s.dropped, s.calls, s.main)
  {
    hide CalledBefore;
    forall u | u in s.subs && Due(s.subs[t := v], s.dropped, s.calls, u)
      ensures || (s.main.Calling? && s.main.cb && s.main.sub == u)
              || (s.subs[u].item in s.items && s.subs[u].item != i && s.items[s.subs[u].item].cb && s.items[s.subs[u].item].sub == u)
    {
      OthersSame(s, t, v, u, 0);
    }
  }

  lemma NewNotCalled(s: State, t: nat)
    requires CallsOk(s.calls, s.subs, s.results, s.dropped) && t !in s.subs
    ensures !CalledBefore(s.calls, t)
  {
  }

  /** What a submission finds in its item. */
  lemma SubmitLeftover(s: State, step: Step)
    requires Inv(s) && step.Submit? && Enabled(s, step)
    ensures var s' := Apply(s, step);
            !step.hasWork ==> Carries(s'.subs, s'.results, step.sub, s'.items[step.item].err)
  {
    hide ListsOk, FieldsOk, CallbacksOk;
  }

  lemma SubmitHistory(s: State, step: Step)
    requires Inv(s) && step.Submit? && Enabled(s, step)
    ensures var s' := Apply(s, step); HistoryOk(s'.items, s'.subs, s'.results, s'.ran)
  {
    hide ListsOk, FieldsOk, CallbacksOk, RanOn;
    var s' := Apply(s, step);
    forall u, i | RanOn(s.subs, s.results, u, i) ensures RanOn(s'.subs, s'.results, u, i) {
      StillRan(s, step, u, i);
    }
  }

  lemma StillRan(s: State, step: Step, u: nat, i: nat)
    requires step.Submit? && Enabled(s, step) && RanOn(s.subs, s.results, u, i)
    ensures RanOn(Apply(s, step).subs, s.results, u, i)
  {
  }

  /** Changing the fields of one item that no list operation touches. */
  lemma KeepRun(s: State, step: Step)
    requires Inv(s) && step.Run? && Enabled(s, step)
    ensures Inv(Apply(s, step))
  {
    hide ListsOk, FieldsOk, CallbacksOk, HistoryOk, Apply, Enabled;
    RunLists(s, step);
    RunFields(s, step);
    RunCallbacks(s, step);
    RunHistory(s, step);
  }

  lemma RunLists(s: State, step: Step)
    requires Inv(s) && step.Run? && Enabled(s, step)
    ensures ListsOk(Apply(s, step))
  {
    hide FieldsOk, CallbacksOk, HistoryOk, Held, Partitioned;
    var i := s.workers[step.w].item;
    HeldChange(s.workers, step.w, Ran(i));
    assert Apply(s, step).items.Keys == s.items.Keys;
  }

  lemma RunHistory(s: State, step: Step)
    requires Inv(s) && step.Run? && Enabled(s, step)
    ensures var s' := Apply(s, step); HistoryOk(s'.items, s'.subs, s'.results, s'.ran)
  {
    hide ListsOk, CallbacksOk, FreeOk, MainOk, QueueOk, RanOk, HistoryOk;
    var i := s.workers[step.w].item;
    if s.items[i].workh {
      ResultHistory(s.items, s.subs, s.results, s.ran, i, step.value);
    }
  }

  /** A result becomes the error value of the item, and the item remembers whose it is. */
  lemma ResultHistory(items: map<nat, Work>, subs: map<nat, Submission>, results: map<nat, int>, ran: map<nat, nat>, i: nat, value: int)
    requires HistoryOk(items, subs, results, ran) && i in items
    requires var u := items[i].sub; u in subs && subs[u].item == i && subs[u].hasWork && u !in results
    ensures HistoryOk(items[i := items[i].(err := value, workh := false)], subs, results[items[i].sub := value], ran[i := items[i].sub])
  {
    hide RanOn;
    var u := items[i].sub;
    forall t, j | RanOn(subs, results, t, j) ensures RanOn(subs, results[u := value], t, j) && t != u {
      StillRanOn(subs, results, u, value, t, j);
    }
    assert RanOn(subs, results[u := value], u, i) by { NewlyRan(subs, results, u, value); }
  }

  lemma StillRanOn(subs: map<nat, Submission>, results: map<nat, int>, u: nat, value: int, t: nat, j: nat)
    requires RanOn(subs, results, t, j) && u !in results
    ensures RanOn(subs, results[u := value], t, j) && t != u && results[u := value][t] == results[t]
  {
  }

  lemma NewlyRan(subs: map<nat, Submission>, results: map<nat, int>, u: nat, value: int)
    requires u in subs && subs[u].hasWork
    ensures RanOn(subs, results[u := value], u, subs[u].item)
  {
  }

  lemma RunFields(s: State, step: Step)
    requires Inv(s) && step.Run? && Enabled(s, step)
    ensures FieldsOk(Apply(s, step))
  {
    hide HistoryOk, ListsOk, CallbacksOk;
    var s' := Apply(s, step);
    assert FreeOk(s'.free, s'.items) && QueueOk(s'.queue, s'.items) && RanOk(s'.workers, s'.items);
    assert MainOk(s'.main, s'.items);
    assert HomeOk(s'.items, s'.subs, s'.results);
  }

  lemma RunCallbacks(s: State, step: Step)
    requires Inv(s) && step.Run? && Enabled(s, step)
    ensures CallbacksOk(Apply(s, step))
  {
    hide HistoryOk, ListsOk, FreeOk, QueueOk, RanOk, MainOk, Due, Carries;
    var s', i := Apply(s, step), s.workers[step.w].item;
    if s.items[i].workh {
      var u := s.items[i].sub;
      forall t, err | Carries(s.subs, s.results, t, err) ensures Carries(s.subs, s'.results, t, err) {
        CarriesMore(s.subs, s.results, u, step.value, t, err);
      }
      OwnResult(s.subs, s.results, u, step.value);
      assert NoneLost(s'.items, s'.subs, s'.dropped, s'.calls, s'.main);
      assert CallsOk(s'.calls, s'.subs, s'.results, s'.dropped);
    }
  }

  /** A new result changes no value that is already known. */
  lemma CarriesMore(subs: map<nat, Submission>, results: map<nat, int>, u: nat, value: int, t: nat, err: int)
    requires u !in results && Carries(subs, results, t, err)
    ensures Carries(subs, results[u := value], t, err)
  {
  }

  lemma OwnResult(subs: map<nat, Submission>, results: map<nat, int>, u: nat, value: int)
    requires u in subs && subs[u].hasWork
    ensures Carries(subs, results[u := value], u, value)
  {
  }

  lemma KeepDequeue(s: State, step: Step)
    requires Inv(s) && step.Dequeue? && Enabled(s, step)
    ensures Inv(Apply(s, step))
  {
    hide ListsOk, FieldsOk, CallbacksOk, HistoryOk;
    DequeueLists(s, step);
    DequeueFields(s, step);
    DequeueCallbacks(s, step);
    SameHistory(s.items, Apply(s, step).items, s.subs, s.results, s.ran);
  }

  lemma DequeueLists(s: State, step: Step)
    requires Inv(s) && step.Dequeue? && Enabled(s, step)
    ensures ListsOk(Apply(s, step))
  {
    hide HistoryOk, FieldsOk, CallbacksOk, Partitioned, Handled;
    assert Apply(s, step).items.Keys == s.items.Keys;
    DequeueParts(s.cur, s.workers, s.queue, Apply(s, step).main);
  }

  lemma DequeueParts(cur: seq<nat>, workers: seq<Worker>, queue: seq<nat>, main: Main)
    requires Handled(cur, workers, queue, Loop) && queue != [] && main.Calling? && main.item == queue[0]
    ensures Handled(cur, workers, queue[1..], main)
  {
    hide Held;
    var i := queue[0];
    assert queue == [i] + queue[1..];
    assert multiset(queue) == multiset{i} + multiset(queue[1..]);
    Passed(Held(workers), multiset(queue[1..]), multiset{}, multiset{i});
  }

  lemma DequeueFields(s: State, step: Step)
    requires Inv(s) && step.Dequeue? && Enabled(s, step)
    ensures FieldsOk(Apply(s, step))
  {
    hide HistoryOk, ListsOk, CallbacksOk, Clear, Finished, HomeOk;
    var s', i := Apply(s, step), s.queue[0];
    assert Finished(s.items, i);
    FinishedIs(s.items, i);
    UpdateItem(s.items, i, s'.items[i]);
    assert forall j :: j in s'.queue ==> j in s.queue;
    assert FreeOk(s'.free, s'.items) && QueueOk(s'.queue, s'.items) && RanOk(s'.workers, s'.items);
    HomeAfter(s.items, s.subs, s.results, i);
  }

  lemma FinishedIs(items: map<nat, Work>, i: nat)
    requires Finished(items, i)
    ensures i in items && !items[i].workh
  {
  }

  /** Losing the callback leaves a work item where it belongs. */
  lemma HomeAfter(items: map<nat, Work>, subs: map<nat, Submission>, results: map<nat, int>, i: nat)
    requires HomeOk(items, subs, results) && i in items
    ensures HomeOk(items[i := items[i].(cb := false)], subs, results)
  {
  }

  lemma DequeueCallbacks(s: State, step: Step)
    requires Inv(s) && step.Dequeue? && Enabled(s, step)
    ensures CallbacksOk(Apply(s, step))
  {
    hide HistoryOk, ListsOk, FreeOk, RanOk, MainOk, Due, Carries, CallsOk;
    var s' := Apply(s, step);
    assert Finished(s.items, s.queue[0]);
    assert PendingOk(s'.items, s'.subs, s'.results, s'.dropped, s'.calls, s'.main);
  }

  // ---------------------------------------------------------------- cancellation

  /** The items that a cancellation clears. */
  ghost predicate Hit(s: State, id: int, i: nat) {
    i in s.items && (i in s.work || i in s.cur) && s.items[i].id == id
  }

  lemma CancelItems(s: State, id: int)
    ensures var s' := CancelAll(s, id);
            && s'.items.Keys == s.items.Keys
            && (forall i :: i in s.items ==>
                  s'.items[i] == if Hit(s, id, i) then CancelWork(s.items[i]) else s.items[i])
            && (forall t :: t in s'.dropped <==>
                  t in s.dropped || exists i :: Hit(s, id, i) && s.items[i].cb && s.items[i].sub == t)
  {
    MatchingMembers(s.work, s.items, id);
    MatchingMembers(s.cur, s.items, id);
    var hits := Matching(s.work, s.items, id) + Matching(s.cur, s.items, id);
    assert forall i :: i in hits <==> Hit(s, id, i);
  }

  lemma KeepCancel(s: State, step: Step)
    requires Inv(s) && step.Cancel? && Enabled(s, step)
    ensures Inv(Apply(s, step))
  {
    hide Inv, Hit, ListsOk, FieldsOk, CallbacksOk, CancelAll;
    CancelLists(s, step.id);
    CancelFields(s, step.id);
    CancelCallbacks(s, step.id);
    CancelHistory(s, step.id);
    assert Inv(Apply(s, step)) by { InvOf(CancelAll(s, step.id)); }
  }

  lemma InvOf(s: State)
    requires ListsOk(s) && FieldsOk(s) && CallbacksOk(s) && HistoryOk(s.items, s.subs, s.results, s.ran)
    ensures Inv(s)
  {
  }

  lemma CancelLists(s: State, id: int)
    requires Inv(s)
    ensures ListsOk(CancelAll(s, id))
  {
    hide HistoryOk, FieldsOk, CallbacksOk, Held, Hit, Matching, NotMatching;
    CancelItems(s, id);
    MatchingCounts(s.work, s.items, id);
    var hit := Matching(s.work, s.items, id);
    assert multiset(s.free + hit) == multiset(s.free) + multiset(hit);
    var f, h, n, c := multiset(s.free), multiset(hit), multiset(NotMatching(s.work, s.items, id)), multiset(s.cur);
    assert (f + h) + n + c == f + (h + n) + c;
  }

  lemma CancelFields(s: State, id: int)
    requires Inv(s)
    ensures FieldsOk(CancelAll(s, id))
  {
    hide HistoryOk, CallbacksOk, ListsOk, Matching, NotMatching;
    CancelItems(s, id);
    MatchingMembers(s.work, s.items, id);
    var s' := CancelAll(s, id);
    assert forall i :: Clear(s.items, i) ==> Clear(s'.items, i);
    assert forall i :: Finished(s.items, i) ==> Finished(s'.items, i);
    assert FreeOk(s'.free, s'.items);
    assert HomeOk(s'.items, s'.subs, s'.results);
  }

  lemma CancelCallbacks(s: State, id: int)
    requires Inv(s)
    ensures CallbacksOk(CancelAll(s, id))
  {
    hide HistoryOk, ListsOk, FreeOk, MainOk, QueueOk, RanOk, CancelAll;
    CancelItems(s, id);
    var s' := CancelAll(s, id);
    CancelKeeps(s, id);
    forall t | t in s'.dropped && t !in s.dropped
      ensures t in s.subs && Due(s.subs, s.dropped, s.calls, t) && Hit(s, id, s.subs[t].item)
      ensures !(s.main.Calling? && s.main.cb && s.main.sub == t)
    {
      var i :| Hit(s, id, i) && s.items[i].cb && s.items[i].sub == t;
    }
    assert CallsOk(s'.calls, s'.subs, s'.results, s'.dropped);
    assert CallingOk(s'.subs, s'.results, s'.dropped, s'.calls, s'.main);
    assert PendingOk(s'.items, s'.subs, s'.results, s'.dropped, s'.calls, s'.main);
    assert NoneLost(s'.items, s'.subs, s'.dropped, s'.calls, s'.main);
  }

  lemma CancelHistory(s: State, id: int)
    requires Inv(s)
    ensures var s' := CancelAll(s, id); HistoryOk(s'.items, s'.subs, s'.results, s'.ran)
  {
    hide ListsOk, FieldsOk, CallbacksOk, HistoryOk, Hit, CancelAll;
    CancelItems(s, id);
    CancelKeeps(s, id);
    SameHistory(s.items, CancelAll(s, id).items, s.subs, s.results, s.ran);
  }

  lemma CancelKeeps(s: State, id: int)
    ensures var s' := CancelAll(s, id);
            s'.subs == s.subs && s'.results == s.results && s'.calls == s.calls && s'.main == s.main && s'.ran == s.ran
  {
  }

  // ---------------------------------------------------------------- shutdown

  ghost predicate Distinct(l: seq<nat>) {
    forall i :: multiset(l)[i] <= 1
  }

  ghost predicate HomeCb(items: map<nat, Work>, subs: map<nat, Submission>) {
    forall i :: i in items && items[i].cb ==> items[i].sub in subs && subs[items[i].sub].item == i
  }

  /** A cancellation call for a callback that is set on an item of the list. */
  ghost predicate CallFor(c: Call, l: seq<nat>, items: map<nat, Work>, subs: map<nat, Submission>) {
    && c.verdict == Cancelled && c.sub in subs
    && var i := subs[c.sub].item;
       i in l && i in items && items[i].cb && items[i].sub == c.sub
  }

  lemma {:induction false} CancelCallsOnly(l: seq<nat>, items: map<nat, Work>, subs: map<nat, Submission>)
    requires HomeCb(items, subs)
    ensures forall k :: 0 <= k < |CancelCalls(l, items)| ==> CallFor(CancelCalls(l, items)[k], l, items, subs)
  {
    if l != [] {
      CancelCallsOnly(l[1..], items, subs);
      var tail, cs := CancelCalls(l[1..], items), CancelCalls(l, items);
      forall k | 0 <= k < |cs| ensures CallFor(cs[k], l, items, subs) {
        var d := |cs| - |tail|;
        if k >= d {
          assert cs[k] == tail[k - d];
          assert CallFor(tail[k - d], l[1..], items, subs);
        }
      }
    }
  }

  lemma {:induction false} CancelCallsAll(l: seq<nat>, items: map<nat, Work>)
    ensures forall i :: i in l && i in items && items[i].cb ==> CalledBefore(CancelCalls(l, items), items[i].sub)
  {
    if l != [] {
      CancelCallsAll(l[1..], items);
      var tail, cs := CancelCalls(l[1..], items), CancelCalls(l, items);
      forall i | i in l && i in items && items[i].cb ensures CalledBefore(cs, items[i].sub) {
        if i == l[0] {
          assert cs[0].sub == items[i].sub;
        } else {
          assert i in l[1..];
          var k :| 0 <= k < |tail| && tail[k].sub == items[i].sub;
          assert cs[k + |cs| - |tail|].sub == items[i].sub;
        }
      }
    }
  }

  ghost predicate OncePerSub(cs: seq<Call>) {
    forall a, b :: 0 <= a < b < |cs| ==> cs[a].sub != cs[b].sub
  }

  lemma {:induction false} CancelCallsOnce(l: seq<nat>, items: map<nat, Work>, subs: map<nat, Submission>)
    requires Distinct(l) && HomeCb(items, subs)
    ensures OncePerSub(CancelCalls(l, items))
  {
    if l != [] {
      var rest := l[1..];
      assert l == [l[0]] + rest;
      forall i ensures multiset(rest)[i] <= 1 {
        assert multiset(l)[i] == multiset{l[0]}[i] + multiset(rest)[i];
      }
      HeadOnce(l);
      CancelCallsOnce(rest, items, subs);
      CancelCallsOnly(rest, items, subs);
      var tail, cs := CancelCalls(rest, items), CancelCalls(l, items);
      var d := |cs| - |tail|;
      forall a, b | 0 <= a < b < |cs| ensures cs[a].sub != cs[b].sub {
        assert cs[b] == tail[b - d];
        assert CallFor(tail[b - d], rest, items, subs);
        if a >= d {
          assert cs[a] == tail[a - d];
          assert tail[a - d].sub != tail[b - d].sub;
        } else {
          assert l[0] in items && items[l[0]].cb && cs[a].sub == items[l[0]].sub;
          assert subs[cs[a].sub].item == l[0];
        }
      }
    }
  }

  lemma {:induction false} HeldExited(ws: seq<Worker>)
    requires AllExited(ws)
    ensures Held(ws) == multiset{}
  {
    if ws != [] {
      HeldExited(ws[1..]);
    }
  }

  lemma KeepDestroy(s: State, step: Step)
    requires Inv(s) && step.Destroy? && Enabled(s, step)
    ensures Inv(Apply(s, step))
    ensures forall t :: t in s.subs ==> !Due(s.subs, s.dropped, Apply(s, step).calls, t)
  {
    hide Held, CancelCalls, Carries, FieldsOk, CallbacksOk, ListsOk, Due, ShutdownCalls, CallsOk, PendingOk, HistoryOk;
    var s', cs := Apply(s, step), CancelCalls(s.work + s.cur, s.items);
    DestroyCovers(s);
    DestroyCalls(s, cs);
    HeldExited(s.workers);
    assert HistoryOk(s'.items, s'.subs, s'.results, s'.ran) by { ForgottenHistory(s.items, s.subs, s.results, s.ran); }
    DestroyedInv(s');
  }

  lemma DestroyedInv(s: State)
    requires s.free == [] && s.work == [] && s.cur == [] && s.queue == [] && s.items == map[] && s.main.Dead?
    requires AllExited(s.workers) && Held(s.workers) == multiset{}
    requires CallsOk(s.calls, s.subs, s.results, s.dropped) && s.results.Keys <= s.subs.Keys
    requires forall t :: t in s.subs ==> !Due(s.subs, s.dropped, s.calls, t)
    requires HistoryOk(s.items, s.subs, s.results, s.ran)
    ensures Inv(s)
  {
    hide CallsOk, Held, Due, HistoryOk;
  }

  /** Shutdown finds every callback that is still due. */
  lemma DestroyCovers(s: State)
    requires Inv(s) && s.main.Stopping?
    ensures CallsOk(s.calls, s.subs, s.results, s.dropped)
    ensures PendingOk(s.items, s.subs, s.results, s.dropped, s.calls, s.main)
    ensures s.results.Keys <= s.subs.Keys
    ensures ShutdownCalls(s, CancelCalls(s.work + s.cur, s.items))
  {
    hide HistoryOk, Held, CancelCalls, Carries, CallsOk, PendingOk, Due, CallFor, CalledBefore;
    var l := s.work + s.cur;
    LiveDistinct(s);
    CancelCallsOnly(l, s.items, s.subs);
    CancelCallsAll(l, s.items);
    CancelCallsOnce(l, s.items, s.subs);
    forall t | t in s.subs && Due(s.subs, s.dropped, s.calls, t) ensures CalledBefore(CancelCalls(l, s.items), t) {
      var i := s.subs[t].item;
      OneList(s, i);
      assert i in s.free ==> Clear(s.items, i);
    }
  }

  /** One cancellation call for each callback that is still due, and no others. */
  ghost predicate ShutdownCalls(s: State, cs: seq<Call>) {
    && (forall k :: 0 <= k < |cs| ==> CallFor(cs[k], s.work + s.cur, s.items, s.subs))
    && OncePerSub(cs)
    && (forall t :: t in s.subs && Due(s.subs, s.dropped, s.calls, t) ==> CalledBefore(cs, t))
  }

  lemma LiveDistinct(s: State)
    requires ListsOk(s)
    ensures Distinct(s.work + s.cur)
  {
    hide Held;
    forall i ensures multiset(s.work + s.cur)[i] <= 1 {
      OneList(s, i);
      assert multiset(s.work + s.cur) == multiset(s.work) + multiset(s.cur);
      assert i in s.work <==> i in multiset(s.work);
      assert i in s.cur <==> i in multiset(s.cur);
    }
  }

  /** Calls made by shutdown follow the earlier ones without repeating any. */
  lemma DestroyCalls(s: State, cs: seq<Call>)
    requires CallsOk(s.calls, s.subs, s.results, s.dropped)
    requires PendingOk(s.items, s.subs, s.results, s.dropped, s.calls, s.main)
    requires ShutdownCalls(s, cs)
    ensures CallsOk(s.calls + cs, s.subs, s.results, s.dropped)
    ensures forall t :: t in s.subs ==> !Due(s.subs, s.dropped, s.calls + cs, t)
  {
    hide Carries;
    var all := s.calls + cs;
    forall k | 0 <= k < |cs| ensures Due(s.subs, s.dropped, s.calls, cs[k].sub) && cs[k].verdict == Cancelled {
      assert CallFor(cs[k], s.work + s.cur, s.items, s.subs);
    }
    forall t | CalledBefore(s.calls, t) || CalledBefore(cs, t) ensures CalledBefore(all, t) {
      if CalledBefore(s.calls, t) {
        var k :| 0 <= k < |s.calls| && s.calls[k].sub == t;
        assert all[k].sub == t;
      } else {
        var k :| 0 <= k < |cs| && cs[k].sub == t;
        assert all[|s.calls| + k].sub == t;
      }
    }
    forall a, b | 0 <= a < b < |all| ensures all[a].sub != all[b].sub {
      if a < |s.calls| <= b {
        NotCalled(s.calls, cs[b - |s.calls|].sub);
      }
    }
  }

  // ---------------------------------------------------------------- every run

  lemma KeepStep(s: State, step: Step)
    requires Inv(s) && Enabled(s, step)
    ensures Inv(Apply(s, step))
  {
    hide Inv, Apply;
    match step
    case Submit(_, _, _, _, _) => KeepSubmit(s, step);
    case Take(_) => KeepTake(s, step);
    case Run(_, _) => KeepRun(s, step);
    case Push(_) => KeepPush(s, step);
    case Exit(_) => KeepExit(s, step);
    case Dequeue => KeepDequeue(s, step);
    case Callback => KeepCallback(s, step);
    case Release => KeepRelease(s, step);
    case Cancel(_) => KeepCancel(s, step);
    case Stop => KeepStop(s, step);
    case Destroy => KeepDestroy(s, step);
  }

  /** The states after a run: any sequence of steps, each enabled when it is taken. */
  ghost predicate Runs(s: State, steps: seq<Step>, r: State)
    decreases |steps|
  {
    if steps == [] then r == s
    else Enabled(s, steps[0]) && Runs(Apply(s, steps[0]), steps[1..], r)
  }

  lemma {:induction false} KeepRuns(s: State, steps: seq<Step>, r: State)
    requires Inv(s) && Runs(s, steps, r)
    ensures Inv(r)
    ensures s.dropped <= r.dropped
    ensures s.main.Dead? ==> r.main.Dead?
    decreases |steps|
  {
    hide Inv, Enabled;
    if steps != [] {
      KeepStep(s, steps[0]);
      DroppedGrows(s, steps[0]);
      KeepRuns(Apply(s, steps[0]), steps[1..], r);
    }
  }

  lemma DroppedGrows(s: State, step: Step)
    requires Enabled(s, step)
    ensures s.dropped <= Apply(s, step).dropped
    ensures s.main.Dead? ==> Apply(s, step).main.Dead?
  {
  }

  // ---------------------------------------------------------------- what it means

  /** Any state of any interleaving, from a fresh pool. */
  ghost predicate Reachable(s: State) {
    exists s0: State, n: nat, steps: seq<Step> :: Init(s0, n) && Runs(s0, steps, s)
  }

  lemma ReachableInv(s: State)
    requires Reachable(s)
    ensures Inv(s)
  {
    hide Inv, Init, Runs;
    var s0: State, n: nat, steps: seq<Step> :| Init(s0, n) && Runs(s0, steps, s);
    InitInv(s0, n);
    KeepRuns(s0, steps, s);
  }

  /**
   Each work item is in exactly one of the three lists, exactly once; a current item is either
   with exactly one worker, or exactly once in the queue, or in queueh.
   */
  lemma ListsPartition(s: State, i: nat)
    requires Reachable(s)
    ensures multiset(s.free)[i] + multiset(s.work)[i] + multiset(s.cur)[i] == if i in s.items then 1 else 0
    ensures multiset(s.cur)[i] == Held(s.workers)[i] + multiset(s.queue)[i] + MainHolds(s.main)[i]
  {
    hide FieldsOk, CallbacksOk, Held;
    ReachableInv(s);
    assert (multiset(s.free) + multiset(s.work) + multiset(s.cur))[i] == multiset(s.items.Keys)[i];
    assert multiset(s.cur)[i] == (Held(s.workers) + multiset(s.queue) + MainHolds(s.main))[i];
  }

  /**
   No submission's callback runs twice. A callback that carries a value carries what the work
   handler of its submission returned; without a work handler, what its work item was left with.
   */
  lemma CallbacksAtMostOnce(s: State, a: nat, b: nat)
    requires Reachable(s) && a < |s.calls| && b < |s.calls|
    ensures s.calls[a].sub == s.calls[b].sub ==> a == b
    ensures var c := s.calls[a];
            && c.sub in s.subs && s.subs[c.sub].hasCb
            && (c.verdict.Value? ==>
                  if s.subs[c.sub].hasWork then c.sub in s.results && s.results[c.sub] == c.verdict.err
                  else Leftover(s.subs[c.sub].prev, s.results, c.verdict.err))
  {
    hide ListsOk, FieldsOk, PendingOk, CallingOk, NoneLost, HistoryOk;
    ReachableInv(s);
  }

  /**
   The error of a submission that has nothing to do is 0 exactly when no handler had run on its
   work item before, or the last one that had returned 0. That one was another submission's.
   */
  lemma StaleError(s: State, a: nat)
    requires Reachable(s) && a < |s.calls| && s.calls[a].verdict.Value?
    requires s.calls[a].sub in s.subs && !s.subs[s.calls[a].sub].hasWork
    ensures var c := s.calls[a];
            var prev := s.subs[c.sub].prev;
            && (prev.Some? ==> RanOn(s.subs, s.results, prev.value, s.subs[c.sub].item) && prev.value != c.sub)
            && (c.verdict.err == 0 <==> prev.None? || s.results[prev.value] == 0)
  {
    hide ListsOk, FieldsOk, CallbacksOk;
    ReachableInv(s);
    CallbacksAtMostOnce(s, a, a);
  }

  lemma {:induction false} RunsOn(s: State, steps: seq<Step>, r: State, step: Step)
    requires Runs(s, steps, r) && Enabled(r, step)
    ensures Runs(s, steps + [step], Apply(r, step))
    decreases |steps|
  {
    hide Enabled, Apply;
    if steps == [] {
      assert [] + [step] == [step] && [step][1..] == [];
      assert Runs(Apply(r, step), [], Apply(r, step));
    } else {
      RunsOn(Apply(s, steps[0]), steps[1..], r, step);
      assert (steps + [step])[1..] == steps[1..] + [step];
    }
  }

  lemma ReachableOn(s: State, step: Step)
    requires Reachable(s) && Enabled(s, step)
    ensures Reachable(Apply(s, step))
  {
    hide Enabled, Apply, Init, Runs;
    var s0: State, n: nat, steps: seq<Step> :| Init(s0, n) && Runs(s0, steps, s);
    RunsOn(s0, steps, s, step);
  }

  /** One submission through a pool with one worker and one work item, up to its callback. */
  lemma OneRound(s: State, sub: nat, hasWork: bool, value: int) returns (r: State)
    requires Reachable(s) && s.free == [0] && 0 in s.items && s.work == [] && s.cur == [] && s.queue == []
    requires s.workers == [Idle] && s.main.Loop? && s.run && sub !in s.subs
    ensures Reachable(r)
    ensures var told := if hasWork then value else s.items[0].err;
            && r.calls == s.calls + [Call(sub, Value(told))]
            && r.subs == s.subs[sub := Submission(hasWork, true, 0, 0, |s.subs|, LastOn(s, 0))]
            && 0 in r.items && r.items[0].err == told
            && r.free == [] && r.work == [] && r.cur == [0] && r.queue == [] && r.workers == [Idle]
            && r.main == Called(0) && r.run
  {
    hide Reachable;
    var r1 := Apply(s, Submit(0, sub, hasWork, true, 0));
    ReachableOn(s, Submit(0, sub, hasWork, true, 0));
    var r2 := Apply(r1, Take(0));
    ReachableOn(r1, Take(0));
    var r3 := Apply(r2, Run(0, value));
    ReachableOn(r2, Run(0, value));
    var r4 := Apply(r3, Push(0));
    ReachableOn(r3, Push(0));
    var r5 := Apply(r4, Dequeue);
    ReachableOn(r4, Dequeue);
    ReachableOn(r5, Callback);
    r := Apply(r5, Callback);
  }

  /**
   A run that shows it: submission 1 has a work handler that returns 7; submission 2 has none, gets
   the same work item, and is called back with 7.
   */
  lemma StaleWitness() returns (s: State)
    ensures Reachable(s) && s.calls == [Call(1, Value(7)), Call(2, Value(7))]
    ensures 2 in s.subs && !s.subs[2].hasWork
  {
    hide Reachable;
    var s0 := State([0], [], [], map[0 := Work(0, false, false, 0, 0)], [Idle], [], Loop, true, map[], map[], map[], {}, []);
    assert Reachable(s0) by { StartReachable(s0); }
    var s1 := OneRound(s0, 1, true, 7);
    ReachableOn(s1, Release);
    var s2 := Apply(s1, Release);
    s := OneRound(s2, 2, false, 0);
  }

  lemma StartReachable(s: State)
    requires s.free == [0] && s.items == map[0 := Work(0, false, false, 0, 0)] && s.workers == [Idle]
    requires s.work == [] && s.cur == [] && s.queue == [] && s.main.Loop? && s.run
    requires s.subs == map[] && s.results == map[] && s.ran == map[] && s.dropped == {} && s.calls == []
    ensures Reachable(s)
  {
    assert multiset(s.items.Keys) == multiset{0};
    assert Init(s, 1) && Runs(s, [], s);
  }

  /** A submission cancelled before queueh has taken its callback is never called back. */
  lemma CancelledNeverCalled(s: State, id: int, t: nat, steps: seq<Step>, r: State)
    requires Reachable(s) && Enabled(s, Cancel(id))
    requires t in s.subs && s.subs[t].id == id && !CalledBefore(s.calls, t)
    requires !(s.main.Calling? && s.main.cb && s.main.sub == t)
    requires Runs(Apply(s, Cancel(id)), steps, r)
    ensures !CalledBefore(r.calls, t)
  {
    hide Runs, Inv;
    ReachableInv(s);
    KeepStep(s, Cancel(id));
    KeepRuns(Apply(s, Cancel(id)), steps, r);
    if s.subs[t].hasCb {
      if t !in s.dropped {
        CancelDrops(s, id, t);
      }
      DroppedNotCalled(r, t);
    } else {
      SubsGrow(Apply(s, Cancel(id)), steps, r);
      NoCallbackNotCalled(r, t);
    }
  }

  /** A cancellation drops the callbacks with its id that are due and not being made. */
  lemma CancelDrops(s: State, id: int, t: nat)
    requires Inv(s) && t in s.subs && s.subs[t].id == id && Due(s.subs, s.dropped, s.calls, t)
    requires !(s.main.Calling? && s.main.cb && s.main.sub == t)
    ensures t in CancelAll(s, id).dropped
  {
    hide Held, CancelAll, HistoryOk;
    var i := s.subs[t].item;
    OneList(s, i);
    assert i in s.free ==> Clear(s.items, i);
    assert Hit(s, id, i);
    CancelItems(s, id);
  }

  lemma DroppedNotCalled(s: State, t: nat)
    requires Inv(s) && t in s.dropped
    ensures !CalledBefore(s.calls, t)
  {
    hide ListsOk, FieldsOk, PendingOk, CallingOk, NoneLost, HistoryOk;
  }

  lemma NoCallbackNotCalled(s: State, t: nat)
    requires Inv(s) && t in s.subs && !s.subs[t].hasCb
    ensures !CalledBefore(s.calls, t)
  {
    hide ListsOk, FieldsOk, PendingOk, CallingOk, NoneLost, HistoryOk;
  }

  /** Submissions are not forgotten. */
  lemma {:induction false} SubsGrow(s: State, steps: seq<Step>, r: State)
    requires Runs(s, steps, r)
    ensures forall t :: t in s.subs ==> t in r.subs && r.subs[t] == s.subs[t]
    decreases |steps|
  {
    if steps != [] {
      SubsKept(s, steps[0]);
      SubsGrow(Apply(s, steps[0]), steps[1..], r);
    }
  }

  lemma SubsKept(s: State, step: Step)
    requires Enabled(s, step)
    ensures forall t :: t in s.subs ==> t in Apply(s, step).subs && Apply(s, step).subs[t] == s.subs[t]
  {
  }

  /**
   After the pool has been destroyed, every submission with a callback that was not cancelled has
   been called back, once: with what its handler returned, or with ECANCELED.
   */
  lemma DestroyedAllCalled(s: State, t: nat)
    requires Reachable(s) && s.main.Dead?
    requires t in s.subs && s.subs[t].hasCb && t !in s.dropped
    ensures CalledBefore(s.calls, t)
  {
    ReachableInv(s);
  }
}
