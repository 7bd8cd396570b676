/** When the audio buffer plays: how its stock fills, and what a read returns before and after. */
module AubufFill {
  import opened Arith
  import opened Bytes
  import opened Aubuf
  import opened AubufStream

  // ---------------------------------------------------------------- filling by appends

  /** Appends, each of which fits what is left to fill. */
  ghost predicate FitsFill(fill: nat, es: seq<Event>)
    decreases |es|
  {
    es == [] || (es[0].Appending? && |es[0].data| <= fill && FitsFill(fill - |es[0].data|, es[1..]))
  }

  lemma AppendFill(s: State, e: Event)
    requires e.Appending?
    ensures Step(s, e).fill == if |e.data| <= s.fill then s.fill - |e.data| else s.fill
    ensures Step(s, e).pkt == |e.data|
    ensures Step(s, e).wish == s.wish && Step(s, e).started == s.started && Step(s, e).live == s.live
  {
    hide InsertSorted;
  }

  /** They count the stock down by their sizes. */
  lemma {:induction false} AppendsFill(s: State, es: seq<Event>)
    requires FitsFill(s.fill, es)
    ensures Run(s, es).fill == s.fill - |AllAdded(es)| >= 0
    ensures Run(s, es).started == s.started && Run(s, es).live == s.live && Run(s, es).wish == s.wish
    decreases |es|
  {
    hide Step;
    if es != [] {
      AppendFill(s, es[0]);
      AppendsFill(Step(s, es[0]), es[1..]);
    }
  }

  // ---------------------------------------------------------------- silence, then sound

  /** While there is something to fill, a read is silence and takes nothing. */
  lemma SilentWhileFilling(s: State, data: seq<Byte>)
    requires s.fill != 0
    ensures Output(s, data) == Zeros(|data|) && Read(s, |data|).afl == s.afl && Read(s, |data|).cur == s.cur
    ensures Read(s, |data|).started == s.started && Read(s, |data|).underruns == s.underruns
  {
    NothingQueued();
    assert Contents([])[..0] == [] && [] + Zeros(|data|)[0..] == Zeros(|data|);
  }

  /** With nothing to fill, it takes all it can, and the buffer counts as started. */
  lemma SoundWhenFull(s: State, data: seq<Byte>)
    requires s.fill == 0
    ensures Taken(s, |data|) == Min(|data|, Unread(ReadFrom(s).afl))
    ensures Output(s, data)[..Taken(s, |data|)] == Contents(ReadFrom(s).afl)[..Taken(s, |data|)]
    ensures Read(s, |data|).started
  {
    hide Contents, ReadFrom, Take, Unread;
    CountOf(ReadFrom(s).afl);
  }

  lemma {:induction false} AppendsOverrun(s: State, es: seq<Event>)
    requires Counted(s) && AllAtEnd(s, es) && forall e :: e in es ==> e.Appending?
    requires s.max == 0 || s.cur + |AllAdded(es)| <= s.max
    ensures Contents(Run(s, es).afl) == Contents(s.afl) + AllAdded(es) && Counted(Run(s, es))
    decreases |es|
  {
    hide Contents, Step, AtEnd, Counted;
    if es == [] {
      assert Contents(s.afl) + [] == Contents(s.afl);
    } else {
      var e := es[0];
      assert e in es;
      OneAppend(s, e);
      AppendsOverrun(Step(s, e), es[1..]);
      Assoc(Contents(s.afl), e.data, AllAdded(es[1..]));
    }
  }

  lemma OneAppend(s: State, e: Event)
    requires Counted(s) && e.Appending? && AtEnd(s, e) && (s.max == 0 || s.cur + |e.data| <= s.max)
    ensures var s' := Step(s, e);
            Contents(s'.afl) == Contents(s.afl) + e.data && Counted(s') && s'.cur == s.cur + |e.data| && s'.max == s.max
  {
    hide Contents, Unread, InsertSorted, Duration;
    var f := Stamped(s, e.data, e.ts, e.rate);
    AtEndIff(s.afl, f);
    ContentsAppend(s.afl, [f]);
    ContentsOne(f);
    CountOf(s.afl);
    CountOf(s.afl + [f]);
  }

  /**
   Playback starts with the first byte as soon as the wished stock is there: after packets that
   together are `min` bytes, a read of up to that many returns exactly the bytes appended first.
   */
  lemma PlaybackStarts(min: nat, max: nat, es: seq<Event>, data: seq<Byte>)
    requires max == 0 || min <= max
    requires FitsFill(min, es) && AllAtEnd(Init(min, max), es) && |AllAdded(es)| == min && |data| <= min
    ensures Output(Run(Init(min, max), es), data) == AllAdded(es)[..|data|]
  {
    hide Run, AllAtEnd, FitsFill, AllAdded, Output, Contents, Unread;
    var s := Run(Init(min, max), es);
    FitsAreAppends(min, es);
    NothingQueued();
    AppendsFill(Init(min, max), es);
    AppendsOverrun(Init(min, max), es);
    assert [] + AllAdded(es) == AllAdded(es);
    CountOf(s.afl);
    LaterRead(s, data);
    assert AllAdded(es)[..|data|] + Zeros(0) == AllAdded(es)[..|data|];
  }

  lemma {:induction false} FitsAreAppends(fill: nat, es: seq<Event>)
    requires FitsFill(fill, es)
    ensures forall e :: e in es ==> e.Appending?
    decreases |es|
  {
    if es != [] {
      FitsAreAppends(fill - |es[0].data|, es[1..]);
      forall e | e in es ensures e.Appending? {
        assert e == es[0] || e in es[1..];
      }
    }
  }

  /** Before that, every read is silence. */
  lemma SilentBefore(min: nat, max: nat, es: seq<Event>, data: seq<Byte>)
    requires FitsFill(min, es) && |AllAdded(es)| < min
    ensures Output(Run(Init(min, max), es), data) == Zeros(|data|)
  {
    hide Run, FitsFill, AllAdded, Output;
    AppendsFill(Init(min, max), es);
    SilentWhileFilling(Run(Init(min, max), es), data);
  }

  // ---------------------------------------------------------------- underrun and flush

  /**
   A read that finds too little gives what there is and asks for the whole stock again, less this
   read itself if a packet is larger than the stock.
   */
  lemma AfterUnderrun(s: State, sz: nat)
    requires s.fill == 0 && s.cur < sz
    ensures var s' := Read(s, sz);
            && s'.underruns == s.underruns + 1 && s'.started && s'.wish == s.wish
            && s'.fill == if s.wish < s.pkt then (if s.wish >= sz then s.wish - sz else 0) else s.wish
  {
  }

  lemma NoUnderrun(s: State, sz: nat)
    requires s.fill == 0 && s.cur >= sz
    ensures Read(s, sz).underruns == s.underruns && Read(s, sz).fill == 0
  {
  }

  /** From there on packets that fit count it down again, and silence lasts until it is gone. */
  lemma RefillsAfterUnderrun(s: State, sz: nat, es: seq<Event>, data: seq<Byte>)
    requires s.fill == 0 && s.cur < sz && s.pkt <= s.wish && FitsFill(s.wish, es)
    ensures var s' := Run(Read(s, sz), es);
            && s'.fill == s.wish - |AllAdded(es)|
            && (|AllAdded(es)| < s.wish ==> Output(s', data) == Zeros(|data|))
            && (|AllAdded(es)| == s.wish ==> Taken(s', |data|) == Min(|data|, Unread(s'.afl)))
  {
    hide Run, FitsFill, AllAdded, Output, Read;
    AfterUnderrun(s, sz);
    AppendsFill(Read(s, sz), es);
    var s' := Run(Read(s, sz), es);
    if s'.fill != 0 {
      SilentWhileFilling(s', data);
    } else {
      SoundWhenFull(s', data);
    }
  }

  lemma {:induction false} Settings(s: State, es: seq<Event>)
    ensures var r := Run(s, es); r.wish == s.wish && r.max == s.max && r.live == s.live
    ensures s.started ==> Run(s, es).started
    decreases |es|
  {
    if es != [] {
      StepSettings(s, es[0]);
      Settings(Step(s, es[0]), es[1..]);
    }
  }

  lemma StepSettings(s: State, e: Event)
    ensures var r := Step(s, e); r.wish == s.wish && r.max == s.max && r.live == s.live && (s.started ==> r.started)
  {
    hide InsertSorted, Take, ReadFrom;
  }

  /** A flushed buffer is a new one, but for what the flush does not touch. */
  lemma FlushIsNew(min: nat, max: nat, es: seq<Event>)
    ensures var r := Run(Init(min, max), es);
            Flush(r) == Init(min, max).(started := r.started, pkt := r.pkt, overruns := r.overruns, underruns := r.underruns)
  {
    hide Run;
    Settings(Init(min, max), es);
  }

  /** Once a read has found the stock complete, no later read drops anything. */
  lemma DropsOnlyFirst(s: State, sz: nat, es: seq<Event>, data: seq<Byte>)
    requires s.fill == 0
    ensures var r := Run(Read(s, sz), es);
            ReadFrom(r).afl == r.afl && (r.fill == 0 ==> Pieces(r, Reading(data))[0] == Lost([]))
  {
    hide Run, Read, Contents;
    SoundWhenFull(s, Zeros(sz));
    Settings(Read(s, sz), es);
    var r := Run(Read(s, sz), es);
    assert |Contents(r.afl)| - |Contents(ReadFrom(r).afl)| == 0;
  }

  // ---------------------------------------------------------------- filling by reads

  function Reads(k: nat, sz: nat): (es: seq<Event>) {
    if k == 0 then [] else [Reading(Zeros(sz))] + Reads(k - 1, sz)
  }

  /** Less than a packet is waited for by reads alone: each counts for its own size. */
  lemma {:induction false} ReadsFill(s: State, k: nat, sz: nat)
    requires 0 < s.fill < s.pkt && k * sz <= s.fill
    ensures Run(s, Reads(k, sz)).fill == s.fill - k * sz
    ensures Run(s, Reads(k, sz)).pkt == s.pkt && Run(s, Reads(k, sz)).afl == s.afl
    decreases k
  {
    hide Take, ReadFrom;
    if k > 0 {
      Distribute(k, 1, sz);
      Nonneg(k - 1, sz);
      var es := Reads(k, sz);
      assert es[1..] == Reads(k - 1, sz);
      var s' := Step(s, es[0]);
      assert s'.fill == s.fill - sz;
      if s'.fill > 0 {
        ReadsFill(s', k - 1, sz);
      } else {
        FullAlready(s', k - 1, sz);
      }
    }
  }

  lemma FullAlready(s: State, k: nat, sz: nat)
    requires k * sz == 0 && s.fill == 0
    ensures k == 0 || sz == 0
  {
  }

  /** A whole packet is not: then no number of reads starts playback. */
  lemma {:induction false} ReadsDoNotFill(s: State, k: nat, sz: nat)
    requires s.fill > 0 && s.fill >= s.pkt
    ensures var r := Run(s, Reads(k, sz)); r == s
    decreases k
  {
    hide Take, ReadFrom;
    if k > 0 {
      var es := Reads(k, sz);
      assert es[1..] == Reads(k - 1, sz);
      assert Step(s, es[0]) == s;
      ReadsDoNotFill(s, k - 1, sz);
    }
  }

  // ---------------------------------------------------------------- statistics

  /** How many appends of a run have made the buffer drop a frame. */
  function Drops(s: State, es: seq<Event>): (n: nat)
    decreases |es|
  {
    if es == [] then 0
    else (if es[0].Appending? && Pieces(s, es[0]) != [] then 1 else 0) + Drops(Step(s, es[0]), es[1..])
  }

  /** How many reads of a run have found a complete stock but too few bytes. */
  function Shortages(s: State, es: seq<Event>): (n: nat)
    decreases |es|
  {
    if es == [] then 0
    else (if es[0].Reading? && s.fill == 0 && s.cur < |es[0].data| then 1 else 0) + Shortages(Step(s, es[0]), es[1..])
  }

  /** The counters of the buffer count exactly these. */
  lemma {:induction false} Statistics(s: State, es: seq<Event>)
    ensures Run(s, es).overruns == s.overruns + Drops(s, es)
    ensures Run(s, es).underruns == s.underruns + Shortages(s, es)
    decreases |es|
  {
    hide InsertSorted, Take, ReadFrom, DroppedBytes;
    if es != [] {
      Statistics(Step(s, es[0]), es[1..]);
    }
  }

  /** Timestamps count microseconds: `rate` bytes, of `rate` bytes per second, last a million of them. */
  lemma OneSecond(rate: nat, k: nat)
    requires rate > 0
    ensures Duration(rate, k * rate) == k * 1000000
  {
    Commute(k, rate);
    assert k * rate * 1000000 == rate * (k * 1000000);
    DivUnique(k * rate * 1000000, rate, k * 1000000, 0);
  }
}
