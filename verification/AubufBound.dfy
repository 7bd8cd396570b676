/** How full the audio buffer gets when packets of one size arrive in order. */
module AubufBound {
  import opened Arith
  import opened Bytes
  import opened Aubuf
  import opened AubufStream

  // ---------------------------------------------------------------- packets of one size

  /** Only the head has been read in part; no frame is empty. */
  ghost predicate Even(l: seq<Frame>, p: nat) {
    && (l != [] ==> 0 < |l[0].left| <= p)
    && (forall i :: 0 < i < |l| ==> |l[i].left| == p)
  }

  /** The least number of packets of p bytes that hold max bytes. */
  function Ceiling(max: nat, p: nat): (k: nat)
    requires p > 0
    ensures max <= k * p < max + p
  {
    var q := (max + p - 1) / p;
    assert q * p <= max + p - 1 < q * p + p;
    q
  }

  ghost predicate Bounded(s: State, p: nat)
    requires p > 0
  {
    Even(s.afl, p) && |s.afl| <= Ceiling(s.max, p)
  }

  lemma {:induction false} EvenUnread(l: seq<Frame>, p: nat)
    requires Even(l, p) && l != []
    ensures Unread(l) == |l[0].left| + (|l| - 1) * p
  {
    if |l| > 1 {
      EvenUnread(l[1..], p);
      assert (|l| - 1) * p == (|l| - 2) * p + p;
    } else {
      ContentsOne(l[0]);
      assert l == [l[0]];
    }
  }

  lemma {:induction false} EvenTake(q: Stock, p: nat, n: nat)
    requires Even(q.afl, p)
    ensures Even(Take(q, n).afl, p) && |Take(q, n).afl| <= |q.afl|
    decreases |q.afl|
  {
    if q.afl != [] && n > |q.afl[0].left| {
      EvenTake(Stock(q.afl[1..], q.cur - |q.afl[0].left|), p, n - |q.afl[0].left|);
    }
  }

  /** One packet more, with the overrun rule, does not pass the ceiling. */
  lemma AppendBounded(s: State, p: nat, e: Event)
    requires p > 0 && s.max > 0 && Counted(s) && Bounded(s, p)
    requires e.Appending? && |e.data| == p && AtEnd(s, e)
    ensures Bounded(Step(s, e), p)
  {
    hide Contents, Unread, InsertSorted, Duration;
    var f := Stamped(s, e.data, e.ts, e.rate);
    var k := Ceiling(s.max, p);
    AtEndIff(s.afl, f);
    var all := s.afl + [f];
    assert Even(all, p);
    if |all| == k + 1 {
      ContentsAppend(s.afl, [f]);
      ContentsOne(f);
      if s.afl != [] {
        EvenUnread(all, p);
      }
      FullOverruns(s, p);
      assert Overrun(s, p);
    }
  }

  lemma FullOverruns(s: State, p: nat)
    requires p > 0 && s.max > 0 && Counted(s) && Even(s.afl, p) && |s.afl| == Ceiling(s.max, p)
    ensures Overrun(s, p)
  {
    assert s.afl != [];
    EvenUnread(s.afl, p);
    assert (|s.afl| - 1) * p + p == |s.afl| * p;
  }

  lemma ReadBounded(s: State, p: nat, sz: nat)
    requires p > 0 && Bounded(s, p)
    ensures Bounded(Read(s, sz), p)
  {
    hide Contents, Unread, Take, ReadFrom;
    var k := ReadFromSuffix(s);
    EvenTake(ReadFrom(s), p, sz);
  }

  ghost predicate OfSize(es: seq<Event>, p: nat) {
    forall e :: e in es && e.Appending? ==> |e.data| == p
  }

  lemma StepBounded(s: State, p: nat, e: Event)
    requires p > 0 && s.max > 0 && Counted(s) && Bounded(s, p)
    requires AtEnd(s, e) && (e.Appending? ==> |e.data| == p)
    ensures Bounded(Step(s, e), p)
  {
    match e
    case Appending(_, _, _) => AppendBounded(s, p, e);
    case Reading(data) => ReadBounded(s, p, |data|);
    case Flushing =>
  }

  /**
   With non-empty packets of one size p that go to the end and a maximum, at most Ceiling(max, p)
   frames are ever queued, and the counter stays below max + p, although an overrun drops only one
   frame that may be partly read.
   */
  lemma {:induction false} RunBounded(s: State, p: nat, es: seq<Event>)
    requires p > 0 && s.max > 0 && Counted(s) && Bounded(s, p)
    requires AllAtEnd(s, es) && OfSize(es, p)
    ensures var s' := Run(s, es); Bounded(s', p) && s'.cur == Unread(s'.afl) < s.max + p && s'.max == s.max
    decreases |es|
  {
    hide Contents, Unread, Bounded, AtEnd, Step;
    if es == [] {
      BoundedCounter(s, p);
    } else {
      var e := es[0];
      assert e in es;
      StepCounted(s, e);
      StepBounded(s, p, e);
      KeepsMax(s, e);
      RunBounded(Step(s, e), p, es[1..]);
    }
  }

  lemma KeepsMax(s: State, e: Event)
    ensures Step(s, e).max == s.max
  {
  }

  lemma BoundedCounter(s: State, p: nat)
    requires p > 0 && s.max > 0 && Bounded(s, p)
    ensures Unread(s.afl) < s.max + p
  {
    hide Contents;
    if s.afl != [] {
      EvenUnread(s.afl, p);
      var n, k := |s.afl|, Ceiling(s.max, p);
      assert (n - 1) * p + p == n * p;
      Scale(p, n, k);
    }
  }

  /** Both results from a new buffer. */
  lemma FromNew(min: nat, max: nat, es: seq<Event>, p: nat)
    requires AllAtEnd(Init(min, max), es)
    ensures Stretch(AllPieces(Init(min, max), es)) + Contents(Run(Init(min, max), es).afl) == AllAdded(es)
    ensures p > 0 && max > 0 && OfSize(es, p) ==>
              var s := Run(Init(min, max), es);
              |s.afl| <= Ceiling(max, p) && s.cur < max + p
  {
    hide Run, AllAtEnd, Stretch;
    var s := Init(min, max);
    RunFate(s, es);
    assert [] + AllAdded(es) == AllAdded(es);
    if p > 0 && max > 0 && OfSize(es, p) {
      RunBounded(s, p, es);
    }
  }

  /** In particular when no frame begins before the last one ended. */
  lemma FromNewInOrder(min: nat, max: nat, es: seq<Event>, p: nat)
    requires AllInOrder(Init(min, max), 0, es)
    ensures Stretch(AllPieces(Init(min, max), es)) + Contents(Run(Init(min, max), es).afl) == AllAdded(es)
    ensures p > 0 && max > 0 && OfSize(es, p) ==>
              var s := Run(Init(min, max), es);
              |s.afl| <= Ceiling(max, p) && s.cur < max + p
  {
    hide Run, AllAtEnd, AllInOrder, Stretch, AllPieces;
    HorizonAtEnd(Init(min, max), 0, es);
    FromNew(min, max, es, p);
  }
}
