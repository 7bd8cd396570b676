/** The audio buffer as a byte queue: what becomes of every byte, over every run. */
module AubufStream {
  import opened Arith
  import opened Bytes
  import opened Aubuf

  // ---------------------------------------------------------------- the fate of every byte

  /** A stretch of bytes that left the queue: handed to a reader, or thrown away. */
  datatype Piece = Heard(bytes: seq<Byte>) | Lost(bytes: seq<Byte>)

  function Stretch(ps: seq<Piece>): (s: seq<Byte>) {
    if ps == [] then [] else ps[0].bytes + Stretch(ps[1..])
  }

  lemma {:induction false} StretchAppend(a: seq<Piece>, b: seq<Piece>)
    ensures Stretch(a + b) == Stretch(a) + Stretch(b)
  {
    if a == [] {
      assert a + b == b;
    } else {
      assert (a + b)[1..] == a[1..] + b;
      StretchAppend(a[1..], b);
    }
  }

  /** What the drop before a read throws away. */
  function DroppedBytes(s: State): (r: seq<Byte>) {
    var all, kept := Contents(s.afl), Contents(ReadFrom(s).afl);
    if |kept| <= |all| then all[..|all| - |kept|] else []
  }

  lemma ReadFromSuffix(s: State) returns (k: nat)
    ensures k <= |s.afl| && ReadFrom(s).afl == s.afl[k..]
  {
    k := 0;
    if s.live && !s.started && s.wish != 0 {
      k := DropSuffix(Stock(s.afl, s.cur), s.wish);
    }
  }

  lemma DropKeepsRest(s: State)
    ensures DroppedBytes(s) + Contents(ReadFrom(s).afl) == Contents(s.afl)
  {
    hide Contents, ReadFrom;
    var k := ReadFromSuffix(s);
    ContentsAppend(s.afl[..k], s.afl[k..]);
    assert s.afl == s.afl[..k] + s.afl[k..];
  }

  /** What leaves the queue in one step. */
  function Pieces(s: State, e: Event): (ps: seq<Piece>) {
    match e
    case Appending(data, ts, rate) =>
      if Overrun(s, |data|) then [Lost(InsertSorted(s.afl, Stamped(s, data, ts, rate))[0].left)] else []
    case Reading(data) =>
      if s.fill != 0 then [Heard([])]
      else [Lost(DroppedBytes(s)), Heard(Contents(ReadFrom(s).afl)[..Taken(s, |data|)])]
    case Flushing => [Lost(Contents(s.afl))]
  }

  function Added(e: Event): (s: seq<Byte>) {
    if e.Appending? then e.data else []
  }

  /** A frame goes to the end exactly when the last queued frame is not later. */
  lemma AtEndIff(l: seq<Frame>, f: Frame)
    ensures InsertSorted(l, f) == l + [f] <==> l == [] || l[|l| - 1].ts <= f.ts
  {
    if l != [] && l[|l| - 1].ts > f.ts {
      assert InsertSorted(l, f)[|l|] == l[|l| - 1];
      assert (l + [f])[|l|] == f;
    }
  }

  /**
   Timestamps that never decrease are not enough: a frame read in part has moved its timestamp on,
   and a frame that overlaps it is put before what is left of it.
   */
  lemma OverlapReorders()
    ensures var s := Run(Init(0, 0), [Appending([1, 2], 10, TIMEBASE), Reading([0]), Appending([3], 10, TIMEBASE)]);
            Contents(s.afl) == [3, 2]
  {
    var e1, e2, e3 := Appending([1, 2], 10, TIMEBASE), Reading([0]), Appending([3], 10, TIMEBASE);
    assert [e1, e2, e3][1..] == [e2, e3] && [e2, e3][1..] == [e3] && [e3][1..] == [];
    var s1 := Step(Init(0, 0), e1);
    assert s1.afl == [Frame([1, 2], 10, TIMEBASE)];
    ContentsOne(s1.afl[0]);
    var s2 := Step(s1, e2);
    assert s2.afl == [Frame([2], 11, TIMEBASE)] by {
      assert ReadFrom(s1) == Stock(s1.afl, 2);
      assert [1, 2][1..] == [2];
    }
    var s3 := Step(s2, e3);
    assert s3.afl == [Frame([3], 10, TIMEBASE), Frame([2], 11, TIMEBASE)];
    assert s3.afl[1..] == [Frame([2], 11, TIMEBASE)];
    ContentsOne(s3.afl[1]);
    assert Run(s3, []) == s3 && Run(s2, [e3]) == s3 && Run(s1, [e2, e3]) == s3;
  }

  lemma HeadAndRest(l: seq<Frame>, f: Frame)
    ensures Contents((l + [f])[1..]) == Contents(l + [f])[|(l + [f])[0].left|..]
    ensures Contents(l + [f]) == Contents(l) + f.left
  {
    ContentsAppend(l, [f]);
    ContentsOne(f);
  }

  lemma OnePiece(p: Piece)
    ensures Stretch([p]) == p.bytes
  {
    assert [p][1..] == [];
  }

  lemma TwoPieces(p: Piece, q: Piece)
    ensures Stretch([p, q]) == p.bytes + q.bytes
  {
    assert [p, q][1..] == [q];
    OnePiece(q);
  }

  /** The appended frame, if the event is an append, goes to the end of the queue. */
  ghost predicate AtEnd(s: State, e: Event) {
    e.Appending? ==> s.afl == [] || s.afl[|s.afl| - 1].ts <= Stamped(s, e.data, e.ts, e.rate).ts
  }

  lemma AppendFate(s: State, e: Event)
    requires e.Appending? && AtEnd(s, e)
    ensures Stretch(Pieces(s, e)) + Contents(Step(s, e).afl) == Contents(s.afl) + e.data
  {
    hide Contents, InsertSorted, Duration, Stretch;
    var f := Stamped(s, e.data, e.ts, e.rate);
    AtEndIff(s.afl, f);
    HeadAndRest(s.afl, f);
    NoPieces();
    var all := s.afl + [f];
    OnePiece(Lost(all[0].left));
    ContentsAppend([all[0]], all[1..]);
    ContentsOne(all[0]);
    assert all == [all[0]] + all[1..];
  }

  lemma NoPieces()
    ensures Stretch([]) == []
  {
  }

  lemma ReadFate(s: State, e: Event)
    requires e.Reading?
    ensures Stretch(Pieces(s, e)) + Contents(Step(s, e).afl) == Contents(s.afl)
  {
    hide Contents, Unread, Stretch, Take, ReadFrom;
    if s.fill != 0 {
      OnePiece(Heard([]));
    } else {
      var n := Taken(s, |e.data|);
      var q, d := ReadFrom(s), DroppedBytes(s);
      DropKeepsRest(s);
      TakeContents(q, |e.data|);
      TwoPieces(Lost(d), Heard(Contents(q.afl)[..n]));
      assert d + Contents(q.afl)[..n] + Contents(q.afl)[n..] == d + Contents(q.afl);
    }
  }

  /** One step conserves bytes and their order. */
  lemma StepFate(s: State, e: Event)
    requires AtEnd(s, e)
    ensures Stretch(Pieces(s, e)) + Contents(Step(s, e).afl) == Contents(s.afl) + Added(e)
  {
    match e
    case Appending(_, _, _) => AppendFate(s, e);
    case Reading(_) => ReadFate(s, e);
    case Flushing => OnePiece(Lost(Contents(s.afl)));
  }

  /** Every append of a run goes to the end of the queue as it is then. */
  ghost predicate AllAtEnd(s: State, es: seq<Event>)
    decreases |es|
  {
    es == [] || (AtEnd(s, es[0]) && AllAtEnd(Step(s, es[0]), es[1..]))
  }

  function AllPieces(s: State, es: seq<Event>): (ps: seq<Piece>)
    decreases |es|
  {
    if es == [] then [] else Pieces(s, es[0]) + AllPieces(Step(s, es[0]), es[1..])
  }

  function AllAdded(es: seq<Event>): (r: seq<Byte>) {
    if es == [] then [] else Added(es[0]) + AllAdded(es[1..])
  }

  /**
   The buffer is a byte queue: over every run whose appends go to the end, the pieces heard and lost,
   one after the other, followed by what is still queued, are the bytes appended, in their order.
   */
  lemma {:induction false} RunFate(s: State, es: seq<Event>)
    requires AllAtEnd(s, es)
    ensures Stretch(AllPieces(s, es)) + Contents(Run(s, es).afl) == Contents(s.afl) + AllAdded(es)
    decreases |es|
  {
    hide Contents, Stretch, Pieces, Step, AtEnd, Added;
    if es == [] {
      NoPieces();
    } else {
      var e := es[0];
      var s' := Step(s, e);
      StepFate(s, e);
      RunFate(s', es[1..]);
      StretchAppend(Pieces(s, e), AllPieces(s', es[1..]));
      Regroup(Stretch(Pieces(s, e)), Stretch(AllPieces(s', es[1..])), Contents(Run(s', es[1..]).afl),
              Contents(s'.afl), AllAdded(es[1..]), Contents(s.afl), Added(e));
    }
  }

  lemma Regroup(p: seq<Byte>, q: seq<Byte>, end: seq<Byte>, mid: seq<Byte>, rest: seq<Byte>, start: seq<Byte>, add: seq<Byte>)
    requires q + end == mid + rest && p + mid == start + add
    ensures (p + q) + end == start + (add + rest)
  {
    assert (p + q) + end == p + (q + end) == (p + mid) + rest;
  }

  // ---------------------------------------------------------------- timestamps that are in order

  /** Every queued frame ends before the horizon. */
  ghost predicate Before(l: seq<Frame>, horizon: nat) {
    forall f :: f in l ==> f.ts + Duration(f.rate, |f.left|) <= horizon
  }

  /** The horizon after a step: the end of the last frame appended. */
  function Horizon(s: State, horizon: nat, e: Event): (h: nat) {
    match e
    case Appending(data, ts, rate) => Stamped(s, data, ts, rate).ts + Duration(rate, |data|)
    case Reading(_) => horizon
    case Flushing => 0
  }

  /** The event does not append a frame that begins before the last one ended. */
  ghost predicate InOrder(s: State, horizon: nat, e: Event) {
    e.Appending? ==> horizon <= Stamped(s, e.data, e.ts, e.rate).ts
  }

  ghost predicate AllInOrder(s: State, horizon: nat, es: seq<Event>)
    decreases |es|
  {
    es == [] || (InOrder(s, horizon, es[0]) && AllInOrder(Step(s, es[0]), Horizon(s, horizon, es[0]), es[1..]))
  }

  lemma DurationSplits(rate: nat, a: nat, b: nat)
    ensures Duration(rate, a) + Duration(rate, b) <= Duration(rate, a + b)
  {
    if rate != 0 {
      var x, y := a * TIMEBASE, b * TIMEBASE;
      assert (a + b) * TIMEBASE == x + y;
      FloorSplits(x, y, rate);
    }
  }

  lemma {:induction false} TakeBefore(q: Stock, n: nat, horizon: nat)
    requires Before(q.afl, horizon)
    ensures Before(Take(q, n).afl, horizon)
    decreases |q.afl|
  {
    if q.afl != [] {
      var f := q.afl[0];
      if n > |f.left| {
        TakeBefore(Stock(q.afl[1..], q.cur - |f.left|), n - |f.left|, horizon);
      } else if n < |f.left| {
        assert f in q.afl;
        DurationSplits(f.rate, n, |f.left| - n);
      }
    }
  }

  lemma StepBefore(s: State, horizon: nat, e: Event)
    requires Before(s.afl, horizon) && InOrder(s, horizon, e)
    ensures AtEnd(s, e) && Before(Step(s, e).afl, Horizon(s, horizon, e))
  {
    hide Duration, Take, ReadFrom, InsertSorted, Contents, Unread;
    match e
    case Appending(data, ts, rate) =>
      var f := Stamped(s, data, ts, rate);
      if s.afl != [] {
        assert s.afl[|s.afl| - 1] in s.afl;
      }
      AtEndIff(s.afl, f);
    case Reading(data) =>
      var k := ReadFromSuffix(s);
      TakeBefore(ReadFrom(s), |data|, horizon);
    case Flushing =>
  }

  /** Frames that do not begin before the last one ended go to the end, however far they are read. */
  lemma {:induction false} HorizonAtEnd(s: State, horizon: nat, es: seq<Event>)
    requires Before(s.afl, horizon) && AllInOrder(s, horizon, es)
    ensures AllAtEnd(s, es)
    decreases |es|
  {
    hide Before, InOrder, Horizon, Step, AtEnd;
    if es != [] {
      StepBefore(s, horizon, es[0]);
      HorizonAtEnd(Step(s, es[0]), Horizon(s, horizon, es[0]), es[1..]);
    }
  }

  /** Frames without timestamps, all of one rate, are in order by construction. */
  ghost predicate Untimed(es: seq<Event>, rate: nat) {
    forall e :: e in es && e.Appending? ==> e.ts == 0 && e.rate == rate
  }

  lemma {:induction false} UntimedInOrder(s: State, es: seq<Event>, rate: nat, horizon: nat)
    requires Untimed(es, rate) && horizon <= Duration(rate, s.wr)
    ensures AllInOrder(s, horizon, es)
    decreases |es|
  {
    hide Duration, Append, Read, InsertSorted;
    if es != [] {
      var e := es[0];
      assert e in es;
      WrittenAfter(s, e);
      if e.Appending? {
        DurationSplits(rate, s.wr, |e.data|);
      }
      UntimedInOrder(Step(s, e), es[1..], rate, Horizon(s, horizon, e));
    }
  }

  lemma WrittenAfter(s: State, e: Event)
    ensures Step(s, e).wr == match e
                             case Appending(data, _, _) => s.wr + |data|
                             case Reading(_) => s.wr
                             case Flushing => 0
  {
    hide InsertSorted, Take, ReadFrom;
  }

  /** So a new buffer that gets only such frames is a byte queue. */
  lemma UntimedAtEnd(min: nat, max: nat, es: seq<Event>, rate: nat)
    requires Untimed(es, rate)
    ensures AllAtEnd(Init(min, max), es)
  {
    hide AllInOrder, AllAtEnd;
    UntimedInOrder(Init(min, max), es, rate, 0);
    HorizonAtEnd(Init(min, max), 0, es);
  }

  // ---------------------------------------------------------------- what a read returns

  /**
   A read for which the caller's buffer is not blanked, although the drop before the first read has
   left fewer bytes than asked for.
   */
  ghost predicate Stale(s: State, sz: nat) {
    s.fill == 0 && s.cur >= sz > Unread(ReadFrom(s).afl)
  }

  /** What a read is to return: the bytes heard, and silence behind them. */
  function Promised(s: State, sz: nat): (out: seq<Byte>) {
    var n := Taken(s, sz);
    Contents(if s.fill != 0 then [] else ReadFrom(s).afl)[..n] + Zeros(if sz >= n then sz - n else 0)
  }

  /** That is what every caller's buffer holds exactly when the read is not stale. */
  lemma ReadOutput(s: State, sz: nat)
    ensures !Stale(s, sz) <==> forall data: seq<Byte> :: |data| == sz ==> Output(s, data) == Promised(s, sz)
  {
    hide Contents, ReadFrom, Unread;
    if Stale(s, sz) {
      var data := seq<Byte>(sz, i => 1);
      CountOf(ReadFrom(s).afl);
      assert Output(s, data)[Taken(s, sz)] == 1;
      assert Promised(s, sz)[Taken(s, sz)] == 0;
    } else {
      forall data: seq<Byte> | |data| == sz ensures Output(s, data) == Promised(s, sz) {
        FreshOutput(s, data);
      }
    }
  }

  lemma FreshOutput(s: State, data: seq<Byte>)
    requires !Stale(s, |data|)
    ensures Output(s, data) == Promised(s, |data|)
  {
    hide Contents, ReadFrom, Unread;
    var n := Taken(s, |data|);
    NothingQueued();
    CountOf(ReadFrom(s).afl);
    assert Zeros(|data|)[n..] == Zeros(|data| - n);
  }

  /** A first read of more than the wished latency is always stale when the bytes are there. */
  lemma StaleFirstRead(s: State, sz: nat)
    requires Counted(s) && s.live && !s.started && s.fill == 0 && 0 < s.wish < sz <= s.cur
    ensures Stale(s, sz)
  {
    hide Drop, Contents, Unread;
    DropCounted(Stock(s.afl, s.cur), s.wish);
  }

  /**
   Such a read: two frames of one byte are queued where one byte is wished for; a first read of two
   bytes returns the second frame and a byte that the caller had in its buffer.
   */
  lemma StaleWitness()
    ensures var s := Run(Init(1, 0), [Appending([1], 10, 0), Appending([2], 10, 0)]);
            Stale(s, 2) && Output(s, [9, 9]) == [2, 9]
  {
    var e1, e2 := Appending([1], 10, 0), Appending([2], 10, 0);
    var f1, f2 := Frame([1], 10, 0), Frame([2], 10, 0);
    assert [e1, e2][1..] == [e2] && [e2][1..] == [];
    var s1 := Step(Init(1, 0), e1);
    AtEndIff([], f1);
    assert s1.afl == [f1] && s1.cur == 1 && s1.fill == 0;
    var s2 := Step(s1, e2);
    AtEndIff([f1], f2);
    assert s2.afl == [f1, f2] && s2.cur == 2 && s2.fill == 0;
    assert Run(s2, []) == s2 && Run(s1, [e2]) == s2;
    assert [f1, f2][1..] == [f2];
    assert ReadFrom(s2) == Stock([f2], 1);
    ContentsOne(f2);
    assert [2][..1] == [2] && [9, 9][1..] == [9];
  }

  /**
   Once started, a read with no stock to fill returns the next min(sz, cur) bytes of the queue and
   silence behind them, and leaves the others.
   */
  lemma LaterRead(s: State, data: seq<Byte>)
    requires Counted(s) && s.fill == 0 && (s.started || !s.live || s.wish == 0 || s.cur <= s.wish)
    ensures var n := Min(|data|, s.cur);
            && Output(s, data) == Contents(s.afl)[..n] + Zeros(|data| - n)
            && Contents(Read(s, |data|).afl) == Contents(s.afl)[n..]
            && Pieces(s, Reading(data)) == [Lost([]), Heard(Contents(s.afl)[..n])]
  {
    hide Contents, Unread, Take, Drop, Output;
    assert ReadFrom(s).afl == s.afl by { DropCounted(Stock(s.afl, s.cur), s.wish); }
    CountOf(s.afl);
    FreshOutput(s, data);
    TakeContents(ReadFrom(s), |data|);
    assert Contents(s.afl)[..0] == [];
  }
}
