/**
 The audio buffer of aubuf.c in fixed mode: a queue of frames sorted by timestamp, read by bytes,
 with a byte counter beside it, dropping whole frames on overrun and before the first read.
 This module holds the buffer as a state machine, and the counter in every run of it.
 */
module Aubuf {
  import opened Bytes

  const TIMEBASE := 1000000

  /** A queued frame: its unread bytes, timestamp, and bytes per second (0 when not known). */
  datatype Frame = Frame(left: seq<Byte>, ts: nat, rate: nat)

  /** auframe_bytes_to_timestamp. */
  function Duration(rate: nat, n: nat): (us: nat) {
    if rate == 0 then 0 else n * TIMEBASE / rate
  }

  function Contents(l: seq<Frame>): (s: seq<Byte>) {
    if l == [] then [] else l[0].left + Contents(l[1..])
  }

  function Unread(l: seq<Frame>): (n: nat)
    ensures n == |Contents(l)|
  {
    if l == [] then 0 else |l[0].left| + Unread(l[1..])
  }

  lemma {:induction false} ContentsAppend(a: seq<Frame>, b: seq<Frame>)
    ensures Contents(a + b) == Contents(a) + Contents(b)
  {
    if a == [] {
      assert a + b == b;
    } else {
      assert (a + b)[1..] == a[1..] + b;
      ContentsAppend(a[1..], b);
    }
  }

  lemma ContentsOne(f: Frame)
    ensures Contents([f]) == f.left
  {
    assert [f][1..] == [];
  }

  // ---------------------------------------------------------------- the operations

  /** The state of struct aubuf in fixed mode. */
  datatype State = State(
    afl: seq<Frame>, wish: nat, cur: int, max: nat, fill: nat, pkt: nat, wr: nat,
    started: bool, live: bool, overruns: nat, underruns: nat)

  function Init(min: nat, max: nat): (s: State) {
    State([], min, 0, max, min, 0, 0, false, true, 0, 0)
  }

  /** Where list_insert_sorted stops, searching from the tail. */
  function Position(l: seq<Frame>, ts: nat, n: nat): (i: nat)
    requires n <= |l|
    ensures i <= n
  {
    if n == 0 || l[n - 1].ts <= ts then n else Position(l, ts, n - 1)
  }

  function InsertAt(l: seq<Frame>, f: Frame, i: nat): (r: seq<Frame>)
    requires i <= |l|
  {
    l[..i] + [f] + l[i..]
  }

  function InsertSorted(l: seq<Frame>, f: Frame): (r: seq<Frame>)
    ensures r != []
  {
    InsertAt(l, f, Position(l, f.ts, |l|))
  }

  /** A frame without a timestamp gets one from the bytes written so far. */
  function Stamped(s: State, data: seq<Byte>, ts: nat, rate: nat): (f: Frame) {
    Frame(data, if ts == 0 then Duration(rate, s.wr) else ts, rate)
  }

  function FillAfterAppend(fill: nat, n: nat): (r: nat) {
    if fill >= n then fill - n else fill
  }

  predicate Overrun(s: State, n: nat) {
    s.max != 0 && s.cur + n > s.max
  }

  function Append(s: State, data: seq<Byte>, ts: nat, rate: nat): (s': State) {
    var all := InsertSorted(s.afl, Stamped(s, data, ts, rate));
    var s1 := s.(pkt := |data|, fill := FillAfterAppend(s.fill, |data|), wr := s.wr + |data|);
    if Overrun(s, |data|) then
      s1.(afl := all[1..], overruns := s.overruns + 1, cur := s.cur + |data| - |all[0].left|)
    else
      s1.(afl := all, cur := s.cur + |data|)
  }

  /** The queue and the counter beside it, as the loops of a read update them. */
  datatype Stock = Stock(afl: seq<Frame>, cur: int)

  /**
   The drop before the first read: frames go while the counter says so. (With an empty queue and a
   counter that is still too large the code would not come back; the counter is exact, so that
   does not happen.)
   */
  function Drop(q: Stock, wish: nat): (r: Stock)
    decreases |q.afl|
  {
    if q.cur > wish && q.afl != [] then Drop(Stock(q.afl[1..], q.cur - |q.afl[0].left|), wish) else q
  }

  /** The queue as the reader finds it. */
  function ReadFrom(s: State): (q: Stock) {
    if s.live && !s.started && s.wish != 0 then Drop(Stock(s.afl, s.cur), s.wish) else Stock(s.afl, s.cur)
  }

  /** read_auframe: up to n bytes are taken, frame by frame, and subtracted from the counter. */
  function Take(q: Stock, n: nat): (r: Stock)
    decreases |q.afl|
  {
    if q.afl == [] then q
    else
      var f := q.afl[0];
      var k := Min(|f.left|, n);
      if k < |f.left| then Stock([Shortened(f, k)] + q.afl[1..], q.cur - k)
      else if k == n then Stock(q.afl[1..], q.cur - k)
      else Take(Stock(q.afl[1..], q.cur - k), n - k)
  }

  /** A frame of which n bytes have been read. */
  function Shortened(f: Frame, n: nat): (r: Frame)
    requires n <= |f.left|
  {
    f.(left := f.left[n..], ts := f.ts + Duration(f.rate, n))
  }

  function FillAfterRead(fill: nat, pkt: nat, sz: nat): (r: nat) {
    if fill != 0 && fill < pkt then (if fill >= sz then fill - sz else 0) else fill
  }

  /** How many bytes a read of sz bytes takes from the queue. */
  function Taken(s: State, sz: nat): (n: nat) {
    if s.fill != 0 then 0 else Min(sz, Unread(ReadFrom(s).afl))
  }

  function Read(s: State, sz: nat): (s': State) {
    if s.fill != 0 then
      s.(fill := FillAfterRead(s.fill, s.pkt, sz))
    else
      var q := Take(ReadFrom(s), sz);
      var low := s.cur < sz;
      s.(afl := q.afl, cur := q.cur, started := true,
         underruns := s.underruns + (if low then 1 else 0),
         fill := FillAfterRead(if low then s.wish else 0, s.pkt, sz))
  }

  /** What the caller's buffer holds after the read. */
  function Output(s: State, data: seq<Byte>): (out: seq<Byte>) {
    var under := if s.fill != 0 || s.cur < |data| then Zeros(|data|) else data;
    var n := Taken(s, |data|);
    Contents(if s.fill != 0 then [] else ReadFrom(s).afl)[..n] + under[n..]
  }

  function Flush(s: State): (s': State) {
    s.(afl := [], fill := s.wish, cur := 0, wr := 0)
  }

  // ---------------------------------------------------------------- the counter

  /** The byte counter agrees with the queue. */
  ghost predicate Counted(s: State) {
    s.cur == Unread(s.afl)
  }

  lemma InsertContents(l: seq<Frame>, f: Frame, i: nat)
    requires i <= |l|
    ensures Contents(InsertAt(l, f, i)) == Contents(l[..i]) + f.left + Contents(l[i..])
    ensures Unread(InsertAt(l, f, i)) == Unread(l) + |f.left|
  {
    hide Contents;
    ContentsAppend(l[..i] + [f], l[i..]);
    ContentsAppend(l[..i], [f]);
    ContentsOne(f);
    ContentsAppend(l[..i], l[i..]);
    assert l == l[..i] + l[i..];
  }

  ghost predicate Sorted(l: seq<Frame>) {
    forall i, j :: 0 <= i < j < |l| ==> l[i].ts <= l[j].ts
  }

  /** In a sorted queue the frame goes behind every frame that is not later, before every later one. */
  lemma {:induction false} PositionSplits(l: seq<Frame>, ts: nat, n: nat)
    requires Sorted(l) && n <= |l|
    ensures forall k :: 0 <= k < Position(l, ts, n) ==> l[k].ts <= ts
    ensures forall k :: Position(l, ts, n) <= k < n ==> l[k].ts > ts
  {
    if n != 0 && l[n - 1].ts > ts {
      PositionSplits(l, ts, n - 1);
    }
  }

  /** list_insert_sorted keeps the queue sorted by timestamp, first come first served among equals. */
  lemma InsertKeepsSorted(l: seq<Frame>, f: Frame)
    requires Sorted(l)
    ensures Sorted(InsertSorted(l, f))
  {
    PositionSplits(l, f.ts, |l|);
  }

  lemma InsertUnread(l: seq<Frame>, f: Frame)
    ensures Unread(InsertSorted(l, f)) == Unread(l) + |f.left|
  {
    hide Unread;
    InsertContents(l, f, Position(l, f.ts, |l|));
  }

  lemma HeadCounts(l: seq<Frame>)
    requires l != []
    ensures Contents(l) == l[0].left + Contents(l[1..]) && Unread(l) == |l[0].left| + Unread(l[1..])
  {
  }

  lemma AppendCounted(s: State, data: seq<Byte>, ts: nat, rate: nat)
    requires Counted(s)
    ensures Counted(Append(s, data, ts, rate))
  {
    hide Contents, InsertSorted, Unread;
    var f := Stamped(s, data, ts, rate);
    InsertUnread(s.afl, f);
    HeadCounts(InsertSorted(s.afl, f));
  }

  /** What a read leaves are the bytes behind those it takes, and the counter is less by their number. */
  lemma {:induction false} TakeContents(q: Stock, n: nat)
    ensures var m := Min(n, Unread(q.afl));
            Contents(Take(q, n).afl) == Contents(q.afl)[m..] && Take(q, n).cur == q.cur - m
    decreases |q.afl|
  {
    hide Contents, Unread;
    if q.afl == [] {
      NothingQueued();
    } else {
      var f, rest := q.afl[0], q.afl[1..];
      HeadCounts(q.afl);
      if n < |f.left| {
        HeadCounts([Shortened(f, n)] + rest);
        assert ([Shortened(f, n)] + rest)[1..] == rest;
        assert f.left[n..] + Contents(rest) == (f.left + Contents(rest))[n..];
      } else if n > |f.left| {
        TakeContents(Stock(rest, q.cur - |f.left|), n - |f.left|);
        Behind(f.left, Contents(rest), Min(n - |f.left|, Unread(rest)));
      } else {
        Behind(f.left, Contents(rest), 0);
      }
    }
  }

  lemma NothingQueued()
    ensures Contents([]) == [] && Unread([]) == 0
  {
  }

  lemma Behind(a: seq<Byte>, b: seq<Byte>, n: nat)
    requires n <= |b|
    ensures (a + b)[|a| + n..] == b[n..]
  {
  }

  /** The drop removes frames from the front. */
  lemma {:induction false} DropSuffix(q: Stock, wish: nat) returns (k: nat)
    ensures k <= |q.afl| && Drop(q, wish).afl == q.afl[k..]
    decreases |q.afl|
  {
    k := 0;
    if q.cur > wish && q.afl != [] {
      k := DropSuffix(Stock(q.afl[1..], q.cur - |q.afl[0].left|), wish);
      k := k + 1;
    }
  }

  /** With an exact counter the drop ends with an exact counter, at no more than was wished for. */
  lemma {:induction false} DropCounted(q: Stock, wish: nat)
    requires q.cur == Unread(q.afl)
    ensures var r := Drop(q, wish); r.cur == Unread(r.afl) <= wish
    ensures q.cur <= wish ==> Drop(q, wish) == q
    decreases |q.afl|
  {
    hide Contents, Unread;
    if q.cur > wish && q.afl != [] {
      HeadCounts(q.afl);
      DropCounted(Stock(q.afl[1..], q.cur - |q.afl[0].left|), wish);
    }
    NothingQueued();
  }

  lemma ReadCounted(s: State, sz: nat)
    requires Counted(s)
    ensures Counted(Read(s, sz))
  {
    hide Contents, Unread, Drop, Take;
    DropCounted(Stock(s.afl, s.cur), s.wish);
    TakeContents(ReadFrom(s), sz);
    CountOf(Take(ReadFrom(s), sz).afl);
    CountOf(ReadFrom(s).afl);
  }

  lemma CountOf(l: seq<Frame>)
    ensures Unread(l) == |Contents(l)|
  {
  }

  // ---------------------------------------------------------------- runs

  datatype Event =
    | Appending(data: seq<Byte>, ts: nat, rate: nat)
    | Reading(data: seq<Byte>)
    | Flushing

  function Step(s: State, e: Event): (s': State) {
    match e
    case Appending(data, ts, rate) => Append(s, data, ts, rate)
    case Reading(data) => Read(s, |data|)
    case Flushing => Flush(s)
  }

  function Run(s: State, es: seq<Event>): (s': State)
    decreases |es|
  {
    if es == [] then s else Run(Step(s, es[0]), es[1..])
  }

  /** Every step keeps the counter right. */
  lemma StepCounted(s: State, e: Event)
    requires Counted(s)
    ensures Counted(Step(s, e))
  {
    match e
    case Appending(data, ts, rate) => AppendCounted(s, data, ts, rate);
    case Reading(data) => ReadCounted(s, |data|);
    case Flushing =>
  }

  /** In every reachable state the counter is the sum of the unread bytes of the queued frames. */
  lemma {:induction false} RunCounted(s: State, es: seq<Event>)
    requires Counted(s)
    ensures Counted(Run(s, es))
    decreases |es|
  {
    if es != [] {
      StepCounted(s, es[0]);
      RunCounted(Step(s, es[0]), es[1..]);
    }
  }
}
