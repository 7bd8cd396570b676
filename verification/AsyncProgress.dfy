/**
 What the worker pool can always do from where it is: work off everything that waits, and shut
 down. And what it does in order: the oldest submission first, cancellation of its own id only.
 */
module AsyncProgress {
  import opened Bytes
  import opened AsyncPool

  // ---------------------------------------------------------------- the run flag

  /** The workers are told to run until shutdown begins, and none leaves before. */
  ghost predicate FlagOk(s: State) {
    && (s.run <==> !s.main.Stopping? && !s.main.Dead?)
    && (s.run ==> forall k :: 0 <= k < |s.workers| ==> !s.workers[k].Exited?)
  }

  lemma FlagStep(s: State, step: Step)
    requires FlagOk(s) && Enabled(s, step)
    ensures FlagOk(Apply(s, step))
  {
  }

  lemma {:induction false} FlagRuns(s: State, steps: seq<Step>, r: State)
    requires FlagOk(s) && Runs(s, steps, r)
    ensures FlagOk(r)
    decreases |steps|
  {
    hide FlagOk, Enabled, Apply;
    if steps != [] {
      FlagStep(s, steps[0]);
      FlagRuns(Apply(s, steps[0]), steps[1..], r);
    }
  }

  lemma FlagReachable(s: State)
    requires Reachable(s)
    ensures FlagOk(s) && Inv(s)
  {
    hide Inv, Runs;
    var s0: State, n: nat, steps: seq<Step> :| Init(s0, n) && Runs(s0, steps, s);
    FlagRuns(s0, steps, s);
    ReachableInv(s);
  }

  // ---------------------------------------------------------------- one more step

  /** Submissions and cancellations as they were; callbacks only added, each with a value. */
  ghost predicate Goes(s: State, r: State) {
    && r.subs == s.subs && r.dropped == s.dropped && |s.calls| <= |r.calls| && r.calls[..|s.calls|] == s.calls
    && |r.workers| == |s.workers|
  }

  ghost predicate WithValues(s: State, r: State) {
    forall k :: |s.calls| <= k < |r.calls| ==> r.calls[k].verdict.Value?
  }

  lemma GoesOn(s: State, m: State, r: State)
    requires Goes(s, m) && Goes(m, r)
    ensures Goes(s, r)
    ensures WithValues(s, m) && WithValues(m, r) ==> WithValues(s, r)
  {
    assert r.calls[..|s.calls|] == r.calls[..|m.calls|][..|s.calls|];
    if WithValues(s, m) && WithValues(m, r) {
      forall k | |s.calls| <= k < |r.calls| ensures r.calls[k].verdict.Value? {
        if k < |m.calls| {
          assert r.calls[k] == r.calls[..|m.calls|][k];
        }
      }
    }
  }

  lemma StepGoes(s: State, step: Step)
    requires Enabled(s, step) && !step.Submit? && !step.Cancel?
    ensures Goes(s, Apply(s, step)) && (!step.Destroy? ==> WithValues(s, Apply(s, step)))
  {
    hide CancelCalls, Without;
  }

  /** A step, and then a run. */
  lemma Then(s: State, step: Step, steps: seq<Step>, r: State)
    requires Enabled(s, step) && Runs(Apply(s, step), steps, r)
    ensures Runs(s, [step] + steps, r)
  {
    hide Enabled, Apply;
    assert ([step] + steps)[1..] == steps;
  }

  // ---------------------------------------------------------------- shutdown

  /** What a worker still has to do before it can leave. */
  function Rank(w: Worker): (n: nat) {
    match w
    case Took(_) => 3
    case Ran(_) => 2
    case Idle => 1
    case Exited => 0
  }

  function Ranks(ws: seq<Worker>): (n: nat) {
    if ws == [] then 0 else Rank(ws[0]) + Ranks(ws[1..])
  }

  lemma {:induction false} RanksUpdate(ws: seq<Worker>, k: nat, w: Worker)
    requires k < |ws|
    ensures Ranks(ws[k := w]) + Rank(ws[k]) == Ranks(ws) + Rank(w)
  {
    hide Rank;
    if k > 0 {
      RanksUpdate(ws[1..], k - 1, w);
      assert ws[k := w][1..] == ws[1..][k - 1 := w];
    } else {
      assert ws[k := w][1..] == ws[1..];
    }
  }

  lemma ItemKnown(s: State, k: nat)
    requires Inv(s) && k < |s.workers| && (s.workers[k].Took? || s.workers[k].Ran?)
    ensures s.workers[k].item in s.items
  {
    hide FieldsOk, CallbacksOk, HistoryOk, Held;
    InCur(s);
    OneList(s, s.workers[k].item);
  }

  /** The next thing for a worker to do on its way out. */
  function WayOut(w: Worker, k: nat): (step: Step) {
    match w
    case Took(_) => Step.Run(k, 0)
    case Ran(_) => Push(k)
    case Idle => Exit(k)
    case Exited => Exit(k)
  }

  lemma WayOutWorks(s: State, k: nat)
    requires Inv(s) && s.main.Stopping? && !s.run && k < |s.workers| && !s.workers[k].Exited?
    ensures var step := WayOut(s.workers[k], k);
            && Enabled(s, step) && !step.Submit? && !step.Cancel? && !step.Destroy?
            && Ranks(Apply(s, step).workers) < Ranks(s.workers)
            && Apply(s, step).main.Stopping? && !Apply(s, step).run
  {
    hide Inv, Ranks;
    var w := s.workers[k];
    if w.Took? {
      ItemKnown(s, k);
      RanksUpdate(s.workers, k, Ran(w.item));
    } else if w.Ran? {
      RanksUpdate(s.workers, k, Idle);
    } else {
      RanksUpdate(s.workers, k, Exited);
    }
  }

  /** Once shutdown has begun, every worker can leave, and then the pool can be destroyed. */
  lemma {:induction false} ShutdownEnds(s: State) returns (steps: seq<Step>, r: State)
    requires Inv(s) && s.main.Stopping? && !s.run
    ensures Runs(s, steps, r) && r.main.Dead? && Goes(s, r) && Inv(r)
    decreases Ranks(s.workers)
  {
    hide Inv, Goes, WithValues, Ranks, Enabled, Apply;
    if AllExited(s.workers) {
      LastStep(s);
      StepGoes(s, Destroy);
      KeepStep(s, Destroy);
      r := Apply(s, Destroy);
      assert Runs(r, [], r);
      Then(s, Destroy, [], r);
      steps := [Destroy] + [];
    } else {
      var k :| 0 <= k < |s.workers| && !s.workers[k].Exited?;
      var step := WayOut(s.workers[k], k);
      WayOutWorks(s, k);
      StepGoes(s, step);
      KeepStep(s, step);
      var m := Apply(s, step);
      var more;
      more, r := ShutdownEnds(m);
      Then(s, step, more, r);
      GoesOn(s, m, r);
      steps := [step] + more;
    }
  }

  lemma LastStep(s: State)
    requires s.main.Stopping? && AllExited(s.workers)
    ensures Enabled(s, Destroy) && Apply(s, Destroy).main.Dead?
  {
  }

  /** A step of the main thread that is always possible, up to the beginning of shutdown. */
  function MainStep(m: Main): (step: Step) {
    match m
    case Calling(_, _, _, _) => Callback
    case Called(_) => Release
    case Loop => Stop
    case Stopping => Stop
    case Dead => Stop
  }

  lemma MainStepWorks(s: State)
    requires !s.main.Stopping? && !s.main.Dead?
    ensures var step := MainStep(s.main);
            var m := Apply(s, step).main;
            && Enabled(s, step)
            && (s.main.Calling? ==> m.Called?) && (s.main.Called? ==> m.Loop?) && (s.main.Loop? ==> m.Stopping?)
  {
    hide Without;
  }

  /** From every state of every interleaving the pool can be shut down, down to the last callback. */
  lemma {:induction false} CanShutDown(s: State) returns (steps: seq<Step>, r: State)
    requires Inv(s) && FlagOk(s) && !s.main.Dead?
    ensures Runs(s, steps, r) && r.main.Dead? && Goes(s, r) && Inv(r)
    decreases if s.main.Calling? then 3 else if s.main.Called? then 2 else if s.main.Loop? then 1 else 0
  {
    hide Inv, Goes, WithValues, Enabled, Apply;
    if s.main.Stopping? {
      steps, r := ShutdownEnds(s);
    } else {
      var step := MainStep(s.main);
      MainStepWorks(s);
      StepGoes(s, step);
      KeepStep(s, step);
      FlagStep(s, step);
      var m := Apply(s, step);
      var more;
      more, r := CanShutDown(m);
      Then(s, step, more, r);
      GoesOn(s, m, r);
      steps := [step] + more;
    }
  }

  /**
   Shutdown always can finish, and when it has, every submission with a callback that was not
   cancelled has been called back.
   */
  lemma ShutdownCompletes(s: State) returns (steps: seq<Step>, r: State)
    requires Reachable(s) && !s.main.Dead?
    ensures Runs(s, steps, r) && r.main.Dead? && r.subs == s.subs && r.dropped == s.dropped
    ensures forall t :: t in s.subs && s.subs[t].hasCb && t !in s.dropped ==> CalledBefore(r.calls, t)
  {
    hide Inv, Runs, Reachable;
    FlagReachable(s);
    steps, r := CanShutDown(s);
    forall t | t in s.subs && s.subs[t].hasCb && t !in s.dropped ensures CalledBefore(r.calls, t) {
      NothingDue(r, t);
    }
  }

  /** With no work item that has a callback set, no callback is due. */
  lemma NothingDue(s: State, t: nat)
    requires Inv(s) && !s.main.Calling? && (s.main.Dead? || (s.work == [] && s.cur == []))
    requires t in s.subs && s.subs[t].hasCb && t !in s.dropped
    ensures CalledBefore(s.calls, t)
  {
    hide Held, HistoryOk, CalledBefore, CallsOk, PendingOk;
    var i := s.subs[t].item;
    OneList(s, i);
    assert i in s.free ==> Clear(s.items, i);
  }

  // ---------------------------------------------------------------- working off

  function Busy(w: Worker): (n: nat) {
    match w
    case Took(_) => 5
    case Ran(_) => 4
    case Idle => 0
    case Exited => 0
  }

  function Business(ws: seq<Worker>): (n: nat) {
    if ws == [] then 0 else Busy(ws[0]) + Business(ws[1..])
  }

  lemma {:induction false} BusinessUpdate(ws: seq<Worker>, k: nat, w: Worker)
    requires k < |ws|
    ensures Business(ws[k := w]) + Busy(ws[k]) == Business(ws) + Busy(w)
  {
    hide Busy;
    if k > 0 {
      BusinessUpdate(ws[1..], k - 1, w);
      assert ws[k := w][1..] == ws[1..][k - 1 := w];
    } else {
      assert ws[k := w][1..] == ws[1..];
    }
  }

  function MainBusy(m: Main): (n: nat) {
    if m.Calling? then 2 else if m.Called? then 1 else 0
  }

  /** How many steps all waiting work is away from its callbacks. */
  function Distance(s: State): (n: nat) {
    6 * |s.work| + Business(s.workers) + 3 * |s.queue| + MainBusy(s.main)
  }

  /** Nothing waits, nothing is queued, nobody works. */
  ghost predicate Quiet(s: State) {
    s.main.Loop? && s.work == [] && s.queue == [] && forall k :: 0 <= k < |s.workers| ==> Busy(s.workers[k]) == 0
  }

  lemma NextStep(s: State) returns (step: Step)
    requires Inv(s) && FlagOk(s) && s.run && |s.workers| >= 1 && !Quiet(s)
    ensures Enabled(s, step) && !step.Submit? && !step.Cancel? && !step.Destroy? && !step.Stop?
    ensures Distance(Apply(s, step)) < Distance(s) && Apply(s, step).run
  {
    hide Inv, Business, Without;
    if s.main.Calling? {
      step := Callback;
    } else if s.main.Called? {
      step := Release;
    } else if s.queue != [] {
      QueueKnown(s);
      step := Dequeue;
    } else if k :| 0 <= k < |s.workers| && Busy(s.workers[k]) != 0 {
      ItemKnown(s, k);
      if s.workers[k].Took? {
        step := Step.Run(k, 0);
        BusinessUpdate(s.workers, k, Ran(s.workers[k].item));
      } else {
        step := Push(k);
        BusinessUpdate(s.workers, k, Idle);
      }
    } else {
      step := Take(0);
      BusinessUpdate(s.workers, 0, Took(s.work[0]));
    }
  }

  lemma QueueKnown(s: State)
    requires Inv(s) && s.queue != []
    ensures s.queue[0] in s.items
  {
    hide ListsOk, CallbacksOk, HistoryOk;
    assert Finished(s.items, s.queue[0]);
  }

  /** A live pool can work off everything, without cancelling anything. */
  lemma {:induction false} Drain(s: State) returns (steps: seq<Step>, r: State)
    requires Inv(s) && FlagOk(s) && s.run && |s.workers| >= 1
    ensures Runs(s, steps, r) && Quiet(r) && Goes(s, r) && WithValues(s, r) && Inv(r) && r.run
    decreases Distance(s)
  {
    hide Inv, Goes, WithValues, Enabled, Apply, FlagOk, Quiet, Distance;
    if Quiet(s) {
      steps, r := [], s;
      Stays(s);
    } else {
      var step := NextStep(s);
      StepGoes(s, step);
      KeepStep(s, step);
      FlagStep(s, step);
      var m := Apply(s, step);
      SameWorkers(s, m);
      var more;
      more, r := Drain(m);
      Then(s, step, more, r);
      GoesOn(s, m, r);
      steps := [step] + more;
    }
  }

  lemma Stays(s: State)
    ensures Goes(s, s) && WithValues(s, s)
  {
  }

  lemma SameWorkers(s: State, m: State)
    requires Goes(s, m)
    ensures |m.workers| == |s.workers|
  {
  }

  lemma QuietIsEmpty(s: State)
    requires Inv(s) && Quiet(s)
    ensures s.cur == []
  {
    hide FieldsOk, CallbacksOk, HistoryOk, Held;
    NobodyHolds(s.workers);
    EmptyList(s.cur);
  }

  lemma EmptyList(l: seq<nat>)
    ensures multiset(l) == multiset{} ==> l == []
  {
    if l != [] {
      assert l[0] in multiset(l);
    }
  }

  lemma {:induction false} NobodyHolds(ws: seq<Worker>)
    requires forall k :: 0 <= k < |ws| ==> Busy(ws[k]) == 0
    ensures Held(ws) == multiset{}
  {
    if ws != [] {
      assert Busy(ws[0]) == 0;
      NobodyHolds(ws[1..]);
    }
  }

  /**
   Progress: from every state of every interleaving before shutdown, with at least one worker, every
   submission that waits for its callback can get it, with a value.
   */
  lemma EverySubmissionCanFinish(s: State) returns (steps: seq<Step>, r: State)
    requires Reachable(s) && !s.main.Stopping? && !s.main.Dead? && |s.workers| >= 1
    ensures Runs(s, steps, r) && r.main.Loop? && r.subs == s.subs && r.dropped == s.dropped
    ensures forall t :: t in s.subs && s.subs[t].hasCb && t !in s.dropped ==> CalledBefore(r.calls, t)
    ensures |s.calls| <= |r.calls| && forall k :: |s.calls| <= k < |r.calls| ==> r.calls[k].verdict.Value?
  {
    hide Inv, Runs, Reachable;
    FlagReachable(s);
    steps, r := Drain(s);
    QuietIsEmpty(r);
    forall t | t in s.subs && s.subs[t].hasCb && t !in s.dropped ensures CalledBefore(r.calls, t) {
      NothingDue(r, t);
    }
  }

  // ---------------------------------------------------------------- first come, first served

  ghost predicate Numbered(l: seq<nat>, items: map<nat, Work>, subs: map<nat, Submission>) {
    forall i :: i in l ==> i in items && items[i].sub in subs
  }

  function NumOf(i: nat, items: map<nat, Work>, subs: map<nat, Submission>): (n: nat)
    requires i in items && items[i].sub in subs
  {
    subs[items[i].sub].num
  }

  /** The list is in the order of submission. */
  ghost predicate Ordered(l: seq<nat>, items: map<nat, Work>, subs: map<nat, Submission>)
    requires Numbered(l, items, subs)
    decreases |l|
  {
    l == [] ||
    ((forall i :: i in l[1..] ==> NumOf(l[0], items, subs) < NumOf(i, items, subs)) && Ordered(l[1..], items, subs))
  }

  ghost predicate WaitOk(s: State) {
    && (forall t :: t in s.subs ==> s.subs[t].num < |s.subs|)
    && Numbered(s.work, s.items, s.subs) && Ordered(s.work, s.items, s.subs)
  }

  lemma {:induction false} OrderedSame(l: seq<nat>, a: map<nat, Work>, subs: map<nat, Submission>, b: map<nat, Work>, subs': map<nat, Submission>)
    requires Numbered(l, a, subs) && Ordered(l, a, subs)
    requires forall i :: i in l ==> i in b && b[i].sub == a[i].sub
    requires forall t :: t in subs ==> t in subs' && subs'[t] == subs[t]
    ensures Numbered(l, b, subs') && Ordered(l, b, subs')
    decreases |l|
  {
    if l != [] {
      assert forall i :: i in l[1..] ==> i in l;
      OrderedSame(l[1..], a, subs, b, subs');
      assert l[0] in l;
      forall i | i in l[1..] ensures NumOf(l[0], b, subs') < NumOf(i, b, subs') {
        assert NumOf(l[0], a, subs) < NumOf(i, a, subs);
      }
    }
  }

  lemma {:induction false} OrderedAppend(l: seq<nat>, items: map<nat, Work>, subs: map<nat, Submission>, x: nat)
    requires Numbered(l + [x], items, subs)
    requires Numbered(l, items, subs) && Ordered(l, items, subs)
    requires forall i :: i in l ==> NumOf(i, items, subs) < NumOf(x, items, subs)
    ensures Ordered(l + [x], items, subs)
    decreases |l|
  {
    if l == [] {
      assert ([] + [x])[1..] == [];
    } else {
      assert (l + [x])[1..] == l[1..] + [x] && (l + [x])[0] == l[0];
      assert l[0] in l;
      OrderedAppend(l[1..], items, subs, x);
    }
  }

  lemma {:induction false} OrderedSublist(l: seq<nat>, items: map<nat, Work>, subs: map<nat, Submission>, id: int)
    requires Numbered(l, items, subs) && Ordered(l, items, subs)
    ensures var r := NotMatching(l, items, id);
            (forall i :: i in r ==> i in l) && Numbered(r, items, subs) && Ordered(r, items, subs)
    decreases |l|
  {
    if l != [] {
      var rest := NotMatching(l[1..], items, id);
      OrderedSublist(l[1..], items, subs, id);
      if !(l[0] in items && items[l[0]].id == id) {
        assert ([l[0]] + rest)[1..] == rest;
      } else {
        assert [] + rest == rest;
      }
    }
  }

  /** The parts of a submission that the order depends on. */
  lemma SubmitShape(s: State, step: Step)
    requires step.Submit? && Enabled(s, step)
    ensures var s' := Apply(s, step);
            && s'.work == s.work + [step.item] && s'.items.Keys == s.items.Keys + {step.item}
            && s'.items[step.item].sub == step.sub && (forall i :: i in s.items && i != step.item ==> s'.items[i] == s.items[i])
            && step.sub !in s.subs && step.sub in s'.subs && s'.subs[step.sub].num == |s.subs|
            && |s'.subs| == |s.subs| + 1 && (forall t :: t in s.subs ==> t in s'.subs && s'.subs[t] == s.subs[t])
            && s'.subs.Keys == s.subs.Keys + {step.sub}
  {
    hide LastOn, Apply, Enabled;
    SubmitIs(s, step);
    Grown(s.subs, step.sub, Apply(s, step).subs[step.sub]);
    assert Apply(s, step).items.Keys == s.items.Keys + {step.item};
  }

  lemma Grown(m: map<nat, Submission>, k: nat, v: Submission)
    requires k !in m
    ensures |m[k := v]| == |m| + 1 && m[k := v].Keys == m.Keys + {k}
  {
    assert m[k := v].Keys == m.Keys + {k};
    SizeOf(m);
    SizeOf(m[k := v]);
  }

  lemma SubmitWait(s: State, step: Step)
    requires Inv(s) && WaitOk(s) && step.Submit? && Enabled(s, step)
    ensures WaitOk(Apply(s, step))
  {
    hide Inv, Ordered, Numbered, Apply, Enabled;
    var s', i := Apply(s, step), step.item;
    SubmitShape(s, step);
    NotWaiting(s, step);
    NumberedParts(s.work, s.items, s.subs);
    OrderedSame(s.work, s.items, s.subs, s'.items, s'.subs);
    NumberedMore(s.work, s'.items, s'.subs, i);
    NumberedParts(s.work, s'.items, s'.subs);
    OrderedAppend(s.work, s'.items, s'.subs, i);
    forall t | t in s'.subs ensures s'.subs[t].num < |s'.subs| {
      assert t in s.subs || t == step.sub;
    }
  }

  lemma SizeOf<T>(m: map<nat, T>)
    ensures |m| == |m.Keys|
  {
  }

  lemma NumberedParts(l: seq<nat>, items: map<nat, Work>, subs: map<nat, Submission>)
    requires Numbered(l, items, subs)
    ensures forall i :: i in l ==> i in items && items[i].sub in subs
  {
  }

  lemma NumberedMore(l: seq<nat>, items: map<nat, Work>, subs: map<nat, Submission>, x: nat)
    requires Numbered(l, items, subs) && x in items && items[x].sub in subs
    ensures Numbered(l + [x], items, subs)
  {
  }

  lemma NotWaiting(s: State, step: Step)
    requires Inv(s) && step.Submit? && Enabled(s, step)
    ensures step.item !in s.work && forall i :: i in s.work ==> i in s.items
  {
    hide FieldsOk, CallbacksOk, HistoryOk, Handled;
    forall i | i in s.work ensures i in s.items {
      OneList(s, i);
    }
    OneList(s, step.item);
  }

  lemma StepWait(s: State, step: Step)
    requires Inv(s) && WaitOk(s) && Enabled(s, step)
    ensures WaitOk(Apply(s, step))
  {
    hide Inv, Ordered, Numbered, Apply, Enabled, WaitOk;
    match step
    case Submit(_, _, _, _, _) => SubmitWait(s, step);
    case Cancel(id) => CancelWait(s, id);
    case _ => OtherWait(s, step);
  }

  lemma CancelWait(s: State, id: int)
    requires WaitOk(s) && Enabled(s, Cancel(id))
    ensures WaitOk(Apply(s, Cancel(id)))
  {
    hide Ordered, Numbered, Matching, NotMatching;
    var s' := Apply(s, Cancel(id));
    CancelItems(s, id);
    OrderedSublist(s.work, s.items, s.subs, id);
    var r := NotMatching(s.work, s.items, id);
    NumberedParts(r, s.items, s.subs);
    OrderedSame(r, s.items, s.subs, s'.items, s'.subs);
  }

  lemma OtherWait(s: State, step: Step)
    requires WaitOk(s) && Enabled(s, step) && !step.Submit? && !step.Cancel?
    ensures WaitOk(Apply(s, step))
  {
    hide Ordered, Numbered, CancelCalls, Without;
    var s' := Apply(s, step);
    NumberedParts(s.work, s.items, s.subs);
    if step.Take? {
      OrderedRest(s.work, s.items, s.subs);
    } else if step.Destroy? {
      NoneWait(s'.items, s'.subs);
    } else {
      OrderedSame(s.work, s.items, s.subs, s'.items, s'.subs);
    }
  }

  lemma OrderedRest(l: seq<nat>, items: map<nat, Work>, subs: map<nat, Submission>)
    requires Numbered(l, items, subs) && Ordered(l, items, subs) && l != []
    ensures Numbered(l[1..], items, subs) && Ordered(l[1..], items, subs)
  {
  }

  lemma NoneWait(items: map<nat, Work>, subs: map<nat, Submission>)
    ensures Numbered([], items, subs) && Ordered([], items, subs)
  {
  }

  lemma {:induction false} RunsWait(s: State, steps: seq<Step>, r: State)
    requires Inv(s) && WaitOk(s) && Runs(s, steps, r)
    ensures WaitOk(r)
    decreases |steps|
  {
    hide Inv, WaitOk, Enabled, Apply;
    if steps != [] {
      KeepStep(s, steps[0]);
      StepWait(s, steps[0]);
      RunsWait(Apply(s, steps[0]), steps[1..], r);
    }
  }

  /** In every interleaving, what a worker takes is the oldest submission that waits. */
  lemma TakesOldest(s: State, i: nat)
    requires Reachable(s) && i in s.work
    ensures forall j :: j in s.work ==> j in s.items && s.items[j].sub in s.subs
    ensures NumOf(s.work[0], s.items, s.subs) <= NumOf(i, s.items, s.subs)
  {
    hide Inv, Runs;
    var s0: State, n: nat, steps: seq<Step> :| Init(s0, n) && Runs(s0, steps, s);
    InitInv(s0, n);
    NoneWait(s0.items, s0.subs);
    RunsWait(s0, steps, s);
    assert i == s.work[0] || i in s.work[1..];
  }

  // ---------------------------------------------------------------- the message queue

  lemma QueueStep(s: State, step: Step)
    requires Enabled(s, step)
    ensures var q := Apply(s, step).queue;
            match step
            case Push(w) => |q| == |s.queue| + 1 && q == s.queue + [q[|s.queue|]]
            case Dequeue => s.queue != [] && q == s.queue[1..]
            case Destroy => Apply(s, step).main.Dead?
            case _ => q == s.queue
  {
    hide Without, CancelCalls, Matching, NotMatching;
  }

  lemma PushedBehind(q: seq<nat>, x: nat, k: nat, more: seq<nat>) returns (k': nat, more': seq<nat>)
    requires k <= |q| + 1
    ensures k' <= |q| && (q + [x])[k..] + more == q[k'..] + more'
  {
    if k <= |q| {
      k', more' := k, [x] + more;
      assert (q + [x])[k..] == q[k..] + [x];
      Assoc(q[k..], [x], more);
    } else {
      k', more' := |q|, more;
    }
  }

  /** Messages leave the queue in the order they came, however long the run. */
  lemma {:induction false} QueueIsFifo(s: State, steps: seq<Step>, r: State) returns (k: nat, more: seq<nat>)
    requires Runs(s, steps, r) && !r.main.Dead?
    ensures k <= |s.queue| && r.queue == s.queue[k..] + more
    decreases |steps|
  {
    hide Enabled, Apply;
    if steps == [] {
      k, more := 0, [];
    } else {
      var step := steps[0];
      var m := Apply(s, step);
      QueueStep(s, step);
      if step.Destroy? {
        StaysDead(m, steps[1..], r);
      }
      k, more := QueueIsFifo(m, steps[1..], r);
      if step.Dequeue? {
        assert s.queue[1..][k..] == s.queue[k + 1..];
        k := k + 1;
      } else if step.Push? {
        k, more := PushedBehind(s.queue, m.queue[|s.queue|], k, more);
      }
    }
  }

  lemma {:induction false} StaysDead(s: State, steps: seq<Step>, r: State)
    requires Runs(s, steps, r) && s.main.Dead?
    ensures r.main.Dead?
    decreases |steps|
  {
    if steps != [] {
      DroppedGrows(s, steps[0]);
      StaysDead(Apply(s, steps[0]), steps[1..], r);
    }
  }

  // ---------------------------------------------------------------- cancellation and nothing else

  lemma CancelOther(s: State, step: Step, t: nat)
    requires Inv(s) && Enabled(s, step) && t in s.subs && t !in s.dropped && step != Cancel(s.subs[t].id)
    ensures t !in Apply(s, step).dropped
  {
    hide ListsOk, CallbacksOk, HistoryOk, CancelAll;
    if step.Cancel? {
      CancelItems(s, step.id);
    }
  }

  /** A submission is dropped only by a cancellation of its own id. */
  lemma {:induction false} DroppedOnlyById(s: State, steps: seq<Step>, r: State, t: nat)
    requires Inv(s) && Runs(s, steps, r) && t in s.subs && t !in s.dropped
    requires Cancel(s.subs[t].id) !in steps
    ensures t !in r.dropped
    decreases |steps|
  {
    hide Inv, Enabled, Apply;
    if steps != [] {
      assert steps[0] in steps;
      CancelOther(s, steps[0], t);
      KeepStep(s, steps[0]);
      SubsKept(s, steps[0]);
      DroppedOnlyById(Apply(s, steps[0]), steps[1..], r, t);
    }
  }

  /** No work item has the work handler of this submission. */
  ghost predicate Unrunnable(s: State, t: nat) {
    t in s.subs && t !in s.results && forall i :: i in s.items && s.items[i].workh ==> s.items[i].sub != t
  }

  lemma StepUnrunnable(s: State, step: Step, t: nat)
    requires Enabled(s, step) && Unrunnable(s, t)
    ensures Unrunnable(Apply(s, step), t)
  {
    hide Matching, NotMatching, CancelAll, CancelCalls, Without;
    if step.Cancel? {
      CancelItems(s, step.id);
      CancelKeeps(s, step.id);
    }
  }

  lemma {:induction false} RunsUnrunnable(s: State, steps: seq<Step>, r: State, t: nat)
    requires Unrunnable(s, t) && Runs(s, steps, r)
    ensures Unrunnable(r, t)
    decreases |steps|
  {
    hide Unrunnable, Enabled, Apply;
    if steps != [] {
      StepUnrunnable(s, steps[0], t);
      RunsUnrunnable(Apply(s, steps[0]), steps[1..], r, t);
    }
  }

  /** A submission cancelled before its work handler has run: the handler never runs. */
  lemma CancelledNeverRuns(s: State, id: int, t: nat, steps: seq<Step>, r: State)
    requires Reachable(s) && Enabled(s, Cancel(id)) && t in s.subs && s.subs[t].id == id && t !in s.results
    requires Runs(Apply(s, Cancel(id)), steps, r)
    ensures t !in r.results
  {
    hide Runs, Reachable, Unrunnable, Inv;
    ReachableInv(s);
    CancelClears(s, id, t);
    RunsUnrunnable(Apply(s, Cancel(id)), steps, r, t);
    assert t !in r.results by { UnrunnableResult(r, t); }
  }

  lemma UnrunnableResult(s: State, t: nat)
    requires Unrunnable(s, t)
    ensures t !in s.results
  {
  }

  lemma CancelClears(s: State, id: int, t: nat)
    requires Inv(s) && Enabled(s, Cancel(id)) && t in s.subs && s.subs[t].id == id && t !in s.results
    ensures Unrunnable(Apply(s, Cancel(id)), t)
  {
    hide CallbacksOk, HistoryOk, Held, CancelAll;
    CancelItems(s, id);
    CancelKeeps(s, id);
    forall i | i in s.items && s.items[i].workh && s.items[i].sub == t ensures Hit(s, id, i) {
      OneList(s, i);
      assert i in s.free ==> Clear(s.items, i);
    }
  }
}
