/**
 The critical sections of async.c as methods that change the pool in place, each proved to take
 one step of the AsyncPool protocol. A submission is named by its handler argument.
 */
module AsyncCode {
  import opened Bytes
  import opened AsyncPool

  /** The history that the protocol records. */
  datatype History = History(
    subs: map<nat, Submission>, results: map<nat, int>, ran: map<nat, nat>, dropped: set<nat>, calls: seq<Call>)

  /** struct re_async, with its history. */
  class Async {
    var freel: seq<nat>
    var workl: seq<nat>
    var curl: seq<nat>
    var items: map<nat, Work>
    var workers: seq<Worker>
    var mqueue: seq<nat>
    var main: Main
    var run: bool
    var made: nat
    ghost var past: History

    ghost function St(): State
      reads this
    {
      State(freel, workl, curl, items, workers, mqueue, main, run,
            past.subs, past.results, past.ran, past.dropped, past.calls)
    }

    ghost predicate Valid()
      reads this
    {
      Inv(St()) && forall i :: i in items ==> i < made
    }

    /** re_async_alloc: for each worker, start it and preallocate a work item. */
    constructor (n: nat)
      ensures Valid() && Init(St(), n)
    {
      freel, workl, curl, items := [], [], [], map[];
      workers, mqueue, main, run, made := [], [], Loop, true, 0;
      past := History(map[], map[], map[], {}, []);
      new;
      hide Inv, Init;
      InitEmpty(St());
      while made < n
        invariant made <= n && Init(St(), made)
        invariant forall i :: i in items ==> i < made
      {
        InitNext(St(), made);
        workers := workers + [Idle];
        items := items[made := FRESH];
        freel, made := freel + [made], made + 1;
      }
      InitInv(St(), n);
    }

    /** re_async: take a free work item, or allocate one, and append it to the waiting list. */
    method Submit(arg: nat, hasWork: bool, hasCb: bool, id: int) returns (item: nat)
      requires Valid() && arg !in past.subs && !main.Stopping? && !main.Dead?
      modifies this
      ensures Valid()
      ensures old(Enabled(St(), Step.Submit(item, arg, hasWork, hasCb, id)))
      ensures St() == Apply(old(St()), Step.Submit(item, arg, hasWork, hasCb, id))
    {
      hide Inv, Enabled, Apply, LastOn;
      ghost var s := St();
      if freel == [] {
        item := made;
        made := made + 1;
      } else {
        item := freel[0];
        FreeInItems(s);
        freel := freel[1..];
      }
      ghost var step := Step.Submit(item, arg, hasWork, hasCb, id);
      SubmitStep(s, step);
      KeepStep(s, step);
      var err := if item in items then items[item].err else 0;
      items := items[item := Work(arg, hasWork, hasCb, err, id)];
      workl := workl + [item];
      past := past.(subs := past.subs[arg := Submission(hasWork, hasCb, item, id, |s.subs|, LastOn(s, item))]);
    }

    /** worker_thread, first critical section: the head of the waiting list becomes current. */
    method Take(w: nat)
      requires Valid() && Enabled(St(), Step.Take(w))
      modifies this`workl, this`curl, this`workers
      ensures Valid() && St() == Apply(old(St()), Step.Take(w))
    {
      hide Inv;
      KeepStep(St(), Step.Take(w));
      var le := workl[0];
      workl, curl := workl[1..], curl + [le];
      workers := workers[w := Took(le)];
    }

    /** worker_thread, under the lock of the work item: run its handler, if it still has one. */
    method Run(w: nat, value: int)
      requires Valid() && Enabled(St(), Step.Run(w, value))
      modifies this`items, this`workers, this`past
      ensures Valid() && St() == Apply(old(St()), Step.Run(w, value))
    {
      hide Inv;
      KeepStep(St(), Step.Run(w, value));
      var i := workers[w].item;
      if items[i].workh {
        past := past.(results := past.results[items[i].sub := value], ran := past.ran[i := items[i].sub]);
        items := items[i := items[i].(err := value, workh := false)];
      }
      workers := workers[w := Ran(i)];
    }

    /** worker_thread, last critical section: hand the item to the main thread. */
    method Push(w: nat)
      requires Valid() && Enabled(St(), Step.Push(w))
      modifies this`mqueue, this`workers
      ensures Valid() && St() == Apply(old(St()), Step.Push(w))
    {
      hide Inv;
      KeepStep(St(), Step.Push(w));
      mqueue := mqueue + [workers[w].item];
      workers := workers[w := Idle];
    }

    /** queueh: take the callback, call it, and free the item, with other threads in between. */
    method QueuehTake()
      requires Valid() && Enabled(St(), Dequeue)
      modifies this`mqueue, this`items, this`main
      ensures Valid() && St() == Apply(old(St()), Dequeue)
    {
      hide Inv;
      KeepStep(St(), Dequeue);
      var i := mqueue[0];
      main := Calling(i, items[i].sub, items[i].cb, items[i].err);
      mqueue, items := mqueue[1..], items[i := items[i].(cb := false)];
    }

    method QueuehCall()
      requires Valid() && Enabled(St(), Callback)
      modifies this`main, this`past
      ensures Valid() && St() == Apply(old(St()), Callback)
    {
      hide Inv;
      KeepStep(St(), Callback);
      past := past.(calls := past.calls + if main.cb then [Call(main.sub, Value(main.err))] else []);
      main := Called(main.item);
    }

    method QueuehRelease()
      requires Valid() && Enabled(St(), Release)
      modifies this`main, this`curl, this`freel
      ensures Valid() && St() == Apply(old(St()), Release)
    {
      hide Inv;
      KeepStep(St(), Release);
      freel, curl := freel + [main.item], Without(curl, main.item);
      main := Loop;
    }

    /** re_async_cancel, with its two loops: over the waiting list and over the current list. */
    method CancelId(id: int)
      requires Valid() && Enabled(St(), Cancel(id))
      modifies this`workl, this`freel, this`items, this`past
      ensures Valid() && St() == Apply(old(St()), Cancel(id))
    {
      hide Inv, Matching, NotMatching, Distinct, Cleared, CancelAll, Enabled, Apply;
      ghost var s := St();
      KeepStep(s, Cancel(id));
      CancelStep(s, id);
      ListsFacts(s);
      workl, freel, items := CancelWaiting(workl, freel, items, id);
      items := CancelCurrent(s.items, Matching(s.work, s.items, id), curl, items, id);
      past := past.(dropped := CancelAll(s, id).dropped);
      ClearedAll(s, items, id);
    }

    /** worker_thread leaves its loop once the pool no longer runs. */
    method ExitWorker(w: nat)
      requires Valid() && Enabled(St(), Step.Exit(w))
      modifies this`workers
      ensures Valid() && St() == Apply(old(St()), Step.Exit(w))
    {
      hide Inv;
      KeepStep(St(), Step.Exit(w));
      workers := workers[w := Exited];
    }

    /** async_destructor: tell the workers to stop ... */
    method StopWorkers()
      requires Valid() && Enabled(St(), Stop)
      modifies this`main, this`run
      ensures Valid() && St() == Apply(old(St()), Stop)
    {
      hide Inv;
      KeepStep(St(), Stop);
      main, run := Stopping, false;
    }

    /** ... and, when all have been joined, make the callbacks still due and drop everything. */
    method DestroyPool()
      requires Valid() && Enabled(St(), Destroy)
      modifies this
      ensures Valid() && St() == Apply(old(St()), Destroy)
    {
      hide Inv, CancelCalls, Distinct, Apply, Enabled;
      ghost var s := St();
      KeepStep(s, Destroy);
      DestroyStep(s);
      ListsFacts(s);
      var due := NotifyBoth(workl, curl, items);
      past := past.(calls := past.calls + due, ran := map[]);
      freel, workl, curl, mqueue, items := [], [], [], [], map[];
      main := Dead;
    }
  }

  const FRESH := Work(0, false, false, 0, 0)

  lemma InitEmpty(s: State)
    requires s == State([], [], [], map[], [], [], Loop, true, map[], map[], map[], {}, [])
    ensures Init(s, 0)
  {
  }

  lemma InitNext(s: State, n: nat)
    requires Init(s, n) && n !in s.items
    ensures Init(s.(workers := s.workers + [Idle], items := s.items[n := FRESH], free := s.free + [n]), n + 1)
  {
    assert s.items[n := FRESH].Keys == s.items.Keys + {n};
    assert multiset(s.items.Keys + {n}) == multiset(s.items.Keys) + multiset{n};
    assert multiset(s.free + [n]) == multiset(s.free) + multiset{n};
  }

  /** First loop of re_async_cancel: matching waiting work is cleared and moved to the free list. */
  method CancelWaiting(work: seq<nat>, free: seq<nat>, before: map<nat, Work>, id: int)
    returns (workl: seq<nat>, freel: seq<nat>, items: map<nat, Work>)
    requires Distinct(work) && forall i :: i in work ==> i in before
    ensures workl == NotMatching(work, before, id)
    ensures freel == free + Matching(work, before, id)
    ensures Cleared(before, items, Matching(work, before, id))
  {
    hide Matching, NotMatching, Distinct;
    workl, freel, items := work, free, before;
    var k := 0;
    ghost var done: seq<nat> := [];
    MatchingNone(before, id);
    assert done + workl[k..] == work;
    while k < |workl|
      invariant k <= |workl| && done + workl[k..] == work
      invariant workl[..k] == NotMatching(done, before, id)
      invariant freel == free + Matching(done, before, id)
      invariant Cleared(before, items, Matching(done, before, id))
      decreases |workl| - k
    {
      var w := workl[k];
      Split(workl, k);
      MatchingNext(done, w, before, id);
      VisitedOnce(done, workl[k..]);
      MatchingMembers(done, before, id);
      assert w in done + workl[k..];
      assert done + [w] + workl[k + 1..] == work;
      done := done + [w];
      if items[w].id != id {
        k := k + 1;
      } else {
        items := items[w := CancelWork(items[w])];
        workl, freel := workl[..k] + workl[k + 1..], freel + [w];
      }
    }
    assert done == work && workl[..k] == workl;
  }

  lemma Split(l: seq<nat>, k: nat)
    requires k < |l|
    ensures l[k..] == [l[k]] + l[k + 1..]
    ensures l[..k + 1] == l[..k] + [l[k]]
    ensures (l[..k] + l[k + 1..])[..k] == l[..k] && (l[..k] + l[k + 1..])[k..] == l[k + 1..]
  {
  }

  lemma MatchingNone(items: map<nat, Work>, id: int)
    ensures Matching([], items, id) == [] && NotMatching([], items, id) == []
  {
  }

  /** Second loop of re_async_cancel: matching current work is cleared where it is. */
  method CancelCurrent(ghost before: map<nat, Work>, ghost hit: seq<nat>, cur: seq<nat>, items0: map<nat, Work>, id: int)
    returns (items: map<nat, Work>)
    requires Distinct(cur) && Cleared(before, items0, hit)
    requires forall i :: i in cur ==> i in before && i !in hit
    ensures Cleared(before, items, hit + Matching(cur, before, id))
  {
    hide Matching, Distinct;
    items := items0;
    var k := 0;
    MatchingNone(before, id);
    assert hit + [] == hit && cur[..0] == [];
    while k < |cur|
      invariant k <= |cur|
      invariant Cleared(before, items, hit + Matching(cur[..k], before, id))
    {
      var w := cur[k];
      Split(cur, k);
      MatchingNext(cur[..k], w, before, id);
      assert cur[..k] + cur[k..] == cur;
      VisitedOnce(cur[..k], cur[k..]);
      MatchingMembers(cur[..k], before, id);
      if items[w].id == id {
        items := items[w := CancelWork(items[w])];
      }
      k := k + 1;
    }
    assert cur[..k] == cur;
  }

  lemma ListsFacts(s: State)
    requires Inv(s)
    ensures Distinct(s.work) && Distinct(s.cur)
    ensures forall i :: i in s.work || i in s.cur ==> i in s.items
    ensures forall i, id :: i in s.cur ==> i !in Matching(s.work, s.items, id)
    ensures forall i :: i in s.cur ==> i !in s.work
  {
    hide Held, Matching;
    forall i ensures multiset(s.work)[i] <= 1 && multiset(s.cur)[i] <= 1 {
      OneList(s, i);
    }
    forall i | i in s.work || i in s.cur ensures i in s.items && !(i in s.work && i in s.cur) {
      OneList(s, i);
    }
    forall i, id | i in s.cur ensures i !in Matching(s.work, s.items, id) {
      OneList(s, i);
      MatchingMembers(s.work, s.items, id);
    }
  }

  /** The items of a list have been cancelled, the others are as they were. */
  ghost predicate Cleared(before: map<nat, Work>, after: map<nat, Work>, hits: seq<nat>) {
    && after.Keys == before.Keys
    && forall i :: i in before ==> after[i] == if i in hits then CancelWork(before[i]) else before[i]
  }

  lemma FreeInItems(s: State)
    requires Inv(s) && s.free != []
    ensures s.free[0] in s.items
  {
    assert Clear(s.items, s.free[0]);
  }

  lemma {:induction false} MatchingNext(done: seq<nat>, w: nat, items: map<nat, Work>, id: int)
    ensures var hit := w in items && items[w].id == id;
            && Matching(done + [w], items, id) == Matching(done, items, id) + (if hit then [w] else [])
            && NotMatching(done + [w], items, id) == NotMatching(done, items, id) + (if hit then [] else [w])
  {
    if done == [] {
      assert done + [w] == [w] && [w][1..] == [];
    } else {
      MatchingNext(done[1..], w, items, id);
      assert (done + [w])[1..] == done[1..] + [w];
      Assoc(if done[0] in items && items[done[0]].id == id then [done[0]] else [],
            Matching(done[1..], items, id), if w in items && items[w].id == id then [w] else []);
      Assoc(if done[0] in items && items[done[0]].id == id then [] else [done[0]],
            NotMatching(done[1..], items, id), if w in items && items[w].id == id then [] else [w]);
    }
  }

  lemma VisitedOnce(done: seq<nat>, left: seq<nat>)
    requires left != [] && Distinct(done + left)
    ensures left[0] !in done
  {
    var w := left[0];
    assert left == [w] + left[1..];
    assert multiset(done + left)[w] == multiset(done)[w] + multiset(left)[w];
    assert w in multiset(left);
  }

  lemma ClearedAll(s: State, items: map<nat, Work>, id: int)
    requires Cleared(s.items, items, Matching(s.work, s.items, id) + Matching(s.cur, s.items, id))
    ensures items == CancelAll(s, id).items && items.Keys == s.items.Keys
  {
  }

  /** One of the notification loops of async_destructor: ECANCELED for each callback, then clear it. */
  method Notify(l: seq<nat>, before: map<nat, Work>) returns (due: seq<Call>, items: map<nat, Work>)
    requires Distinct(l) && forall i :: i in l ==> i in before
    ensures due == CancelCalls(l, before)
    ensures items.Keys == before.Keys
    ensures forall i :: i in before && i !in l ==> items[i] == before[i]
    ensures forall i :: i in l ==> !items[i].cb
  {
    hide CancelCalls, Distinct;
    due, items := [], before;
    CancelCallsNone(before);
    assert l[..0] == [];
    for k := 0 to |l|
      invariant due == CancelCalls(l[..k], before) && items.Keys == before.Keys
      invariant forall i :: i in before && i !in l[..k] ==> items[i] == before[i]
      invariant forall i :: i in l[..k] ==> !items[i].cb
    {
      var w := l[k];
      Split(l, k);
      assert l[..k] + l[k..] == l;
      VisitedOnce(l[..k], l[k..]);
      CancelCallsAppend(l[..k], [w], before);
      CancelCallsOne(w, before);
      if items[w].cb {
        due := due + [Call(items[w].sub, Cancelled)];
        items := items[w := items[w].(cb := false)];
      } else {
        assert CancelCalls(l[..k], before) + [] == CancelCalls(l[..k], before);
      }
    }
    assert l[..|l|] == l;
  }

  /** Both of them: the waiting list, then the current list. */
  method NotifyBoth(work: seq<nat>, cur: seq<nat>, items: map<nat, Work>) returns (due: seq<Call>)
    requires Distinct(work) && Distinct(cur)
    requires forall i :: i in work || i in cur ==> i in items
    requires forall i :: i in cur ==> i !in work
    ensures due == CancelCalls(work + cur, items)
  {
    hide CancelCalls, Distinct;
    var first, after := Notify(work, items);
    var second, _ := Notify(cur, after);
    TwoLoops(work, cur, items, after);
    due := first + second;
  }

  lemma SubmitStep(s: State, step: Step)
    requires step.Submit? && !s.main.Stopping? && !s.main.Dead? && step.sub !in s.subs
    requires if s.free == [] then step.item !in s.items else step.item == s.free[0] && step.item in s.items
    ensures Enabled(s, step)
    ensures var err := if step.item in s.items then s.items[step.item].err else 0;
            Apply(s, step) ==
              s.(free := if s.free == [] then [] else s.free[1..], work := s.work + [step.item],
                 items := s.items[step.item := Work(step.sub, step.hasWork, step.hasCb, err, step.id)],
                 subs := s.subs[step.sub := Submission(step.hasWork, step.hasCb, step.item, step.id, |s.subs|, LastOn(s, step.item))])
  {
  }

  lemma CancelStep(s: State, id: int)
    requires Enabled(s, Cancel(id))
    ensures Apply(s, Cancel(id)) ==
            s.(work := NotMatching(s.work, s.items, id), free := s.free + Matching(s.work, s.items, id),
               items := CancelAll(s, id).items, dropped := CancelAll(s, id).dropped)
  {
  }

  lemma DestroyStep(s: State)
    requires Enabled(s, Destroy)
    ensures Apply(s, Destroy) == s.(main := Dead, free := [], work := [], cur := [], queue := [], items := map[], ran := map[],
                                    calls := s.calls + CancelCalls(s.work + s.cur, s.items))
  {
  }

  lemma TwoLoops(a: seq<nat>, b: seq<nat>, items: map<nat, Work>, after: map<nat, Work>)
    requires forall i :: i in b ==> i !in a && i in items
    requires items.Keys == after.Keys && forall i :: i in items && i !in a ==> after[i] == items[i]
    ensures CancelCalls(a + b, items) == CancelCalls(a, items) + CancelCalls(b, after)
  {
    CancelCallsSame(b, items, after);
    CancelCallsAppend(a, b, items);
  }

  lemma CancelCallsNone(items: map<nat, Work>)
    ensures CancelCalls([], items) == []
  {
  }

  lemma CancelCallsOne(w: nat, items: map<nat, Work>)
    ensures CancelCalls([w], items) == if w in items && items[w].cb then [Call(items[w].sub, Cancelled)] else []
  {
    assert [w][1..] == [];
  }

  lemma {:induction false} CancelCallsAppend(a: seq<nat>, b: seq<nat>, items: map<nat, Work>)
    ensures CancelCalls(a + b, items) == CancelCalls(a, items) + CancelCalls(b, items)
  {
    if a == [] {
      assert a + b == b;
    } else {
      assert (a + b)[1..] == a[1..] + b;
      CancelCallsAppend(a[1..], b, items);
    }
  }

  lemma {:induction false} CancelCallsSame(l: seq<nat>, a: map<nat, Work>, b: map<nat, Work>)
    requires forall i :: i in l ==> i in a && i in b && a[i] == b[i]
    ensures CancelCalls(l, a) == CancelCalls(l, b)
  {
    if l != [] {
      CancelCallsSame(l[1..], a, b);
    }
  }
}
