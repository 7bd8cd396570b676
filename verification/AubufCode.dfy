/** The audio buffer's functions as they update struct aubuf, each proved against the state machine. */
module AubufCode {
  import opened Bytes
  import opened Aubuf

  /** list_insert_sorted: search from the tail. */
  method Insert(l: seq<Frame>, f: Frame) returns (r: seq<Frame>)
    ensures r == InsertSorted(l, f)
  {
    var i := |l|;
    while i > 0 && l[i - 1].ts > f.ts
      invariant 0 <= i <= |l|
      invariant Position(l, f.ts, |l|) == Position(l, f.ts, i)
    {
      i := i - 1;
    }
    r := l[..i] + [f] + l[i..];
  }

  /** One frame of a read. */
  lemma ReadTurn(q: Stock, sz: nat)
    requires q.afl != []
    ensures var f := q.afl[0];
            var k := Min(|f.left|, sz);
            var q' := Stock(if k == |f.left| then q.afl[1..] else [Shortened(f, k)] + q.afl[1..], q.cur - k);
            && Take(q, sz) == (if k == sz then q' else Take(q', sz - k))
            && Contents(q.afl) == f.left + Contents(q.afl[1..])
            && Contents(q'.afl) == f.left[k..] + Contents(q.afl[1..])
  {
    var f := q.afl[0];
    var k := Min(|f.left|, sz);
    assert k < |f.left| ==> ([Shortened(f, k)] + q.afl[1..])[1..] == q.afl[1..];
  }

  lemma Overwrite(all: seq<Byte>, data: seq<Byte>, p: nat, left: seq<Byte>, rest: seq<Byte>, k: nat)
    requires p <= |all| && p + k <= |data| && k <= |left| && all[p..] == left + rest
    ensures p + k <= |all|
    ensures var out := all[..p] + data[p..];
            out[..p] + left[..k] + out[p + k..] == all[..p + k] + data[p + k..]
    ensures left[k..] + rest == all[p + k..]
  {
    assert all == all[..p] + (left + rest);
    assert all[..p + k] == all[..p] + left[..k];
  }

  lemma NothingLeft(cur: int, n: nat)
    ensures Contents([]) == [] && Take(Stock([], cur), n) == Stock([], cur)
  {
  }

  /** read_auframe: copy up to |data| bytes, frame by frame, over the buffer `data`. */
  method ReadFrames(l: seq<Frame>, cur0: nat, data: seq<Byte>) returns (afl: seq<Frame>, cur: nat, out: seq<Byte>)
    requires cur0 == Unread(l)
    ensures Stock(afl, cur) == Take(Stock(l, cur0), |data|)
    ensures var n := Min(|data|, cur0); out == Contents(l)[..n] + data[n..]
  {
    hide Contents, Take, Unread, Shortened;
    var p, done: bool := 0, false;
    afl, cur, out := l, cur0, data;
    CountOf(l);
    assert data[0..] == data && Contents(l)[0..] == Contents(l);
    while afl != [] && !done
      invariant p <= |data| == |out| && p <= |Contents(l)| && cur == |Contents(l)| - p
      invariant out == Contents(l)[..p] + data[p..]
      invariant Contents(afl) == Contents(l)[p..]
      invariant Take(Stock(l, cur0), |data|) == if done then Stock(afl, cur) else Take(Stock(afl, cur), |data| - p)
      invariant done ==> p == |data|
      decreases |afl|, !done
    {
      var f := afl[0];
      var sz := |data| - p;
      var k := Min(|f.left|, sz);
      ReadTurn(Stock(afl, cur), sz);
      Overwrite(Contents(l), data, p, f.left, Contents(afl[1..]), k);
      out := out[..p] + f.left[..k] + out[p + k..];
      cur := cur - k;
      if k == |f.left| {
        afl := afl[1..];
      } else {
        afl := [Shortened(f, k)] + afl[1..];
      }
      p, done := p + k, k == sz;
    }
    NothingLeft(cur, |data| - p);
  }

  /** The drop before the first read: it ends because the counter is the number of queued bytes. */
  method DropOld(l: seq<Frame>, cur0: nat, wish: nat) returns (afl: seq<Frame>, cur: nat)
    requires cur0 == Unread(l)
    ensures Stock(afl, cur) == Drop(Stock(l, cur0), wish) && cur == Unread(afl)
  {
    afl, cur := l, cur0;
    while cur > wish
      invariant cur == Unread(afl) && Drop(Stock(l, cur0), wish) == Drop(Stock(afl, cur), wish)
      decreases |afl|
    {
      cur := cur - |afl[0].left|;
      afl := afl[1..];
    }
  }

  /** Insertion, and the drop of the head on an overrun. */
  method Enqueue(l: seq<Frame>, cur0: nat, f: Frame, max: nat) returns (afl: seq<Frame>, cur: nat, over: bool)
    requires cur0 == Unread(l)
    ensures over == (max != 0 && cur0 + |f.left| > max)
    ensures var all := InsertSorted(l, f);
            if over then afl == all[1..] && cur == cur0 + |f.left| - |all[0].left|
            else afl == all && cur == cur0 + |f.left|
  {
    hide InsertSorted, Contents, Unread;
    InsertUnread(l, f);
    afl := Insert(l, f);
    cur := cur0 + |f.left|;
    over := max != 0 && cur > max;
    if over {
      HeadCounts(afl);
      cur := cur - |afl[0].left|;
      afl := afl[1..];
    }
  }

  /** struct aubuf in fixed mode. */
  class AudioBuffer {
    var afl: seq<Frame>
    var wish: nat
    var cur: nat
    var max: nat
    var fill: nat
    var pkt: nat
    var wr: nat
    var started: bool
    var live: bool
    var overruns: nat
    var underruns: nat

    ghost function Abs(): (s: Aubuf.State)
      reads this
    {
      Aubuf.State(afl, wish, cur, max, fill, pkt, wr, started, live, overruns, underruns)
    }

    ghost predicate Valid()
      reads this
    {
      Counted(Abs())
    }

    constructor (min: nat, max: nat)
      ensures Valid() && Abs() == Init(min, max)
    {
      afl, wish, cur, this.max, fill, pkt, wr := [], min, 0, max, min, 0, 0;
      started, live, overruns, underruns := false, true, 0, 0;
    }

    /** aubuf_append_auframe. */
    method Append(data: seq<Byte>, ts: nat, rate: nat)
      requires Valid()
      modifies this
      ensures Valid() && Abs() == Aubuf.Append(old(Abs()), data, ts, rate)
    {
      hide InsertSorted, Contents, Unread, Duration;
      AppendCounted(Abs(), data, ts, rate);
      var toFill, t := fill, ts;
      if toFill >= |data| {
        toFill := toFill - |data|;
      }
      if t == 0 {
        t := Duration(rate, wr);
      }
      var l, n, over := Enqueue(afl, cur, Frame(data, t, rate), max);
      afl, cur, wr := l, n, wr + |data|;
      pkt, fill := |data|, toFill;
      overruns := overruns + if over then 1 else 0;
    }

    /** aubuf_read_auframe. */
    method Read(data: seq<Byte>) returns (out: seq<Byte>)
      requires Valid()
      modifies this
      ensures Valid() && Abs() == Aubuf.Read(old(Abs()), |data|)
      ensures out == Output(old(Abs()), data)
    {
      hide Contents, Take, Drop, Unread;
      ReadCounted(Abs(), |data|);
      out := data;
      var filling, toFill, low := fill > 0, fill, 0;
      if fill != 0 || cur < |data| {
        out := Zeros(|data|);
        if !filling {
          toFill, low := wish, 1;
        }
      }
      if !filling {
        var l, n := afl, cur;
        if live && !started && wish != 0 {
          l, n := DropOld(l, n, wish);
        }
        l, n, out := ReadFrames(l, n, out);
        afl, cur, started := l, n, true;
      } else {
        NothingLeft(0, 0);
      }
      if toFill != 0 && toFill < pkt {
        toFill := if toFill >= |data| then toFill - |data| else 0;
      }
      fill, underruns := toFill, underruns + low;
    }

    /** aubuf_flush. */
    method Flush()
      requires Valid()
      modifies this
      ensures Valid() && Abs() == Aubuf.Flush(old(Abs()))
    {
      afl, fill, cur, wr := [], wish, 0, 0;
    }
  }
}
