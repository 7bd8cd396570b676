/**
 The finite impulse response filter of fir.c and the downsampling of resamp.c, as functions of the
 whole stream of interleaved samples since the last reset.
 */
module Fir {
  import opened Arith
  import opened Bytes

  /** int16_t */
  type Sample = x: int | -0x8000 <= x < 0x8000

  // ---------------------------------------------------------------- convolution

  /** A sample of the stream; silence before it began. */
  function At(s: seq<Sample>, k: int): (x: Sample)
    requires k < |s|
  {
    if k < 0 then 0 else s[k]
  }

  /** The first n taps applied to sample k and the earlier samples of its channel. */
  function Conv(s: seq<Sample>, k: int, ch: nat, taps: seq<Sample>, n: nat): (acc: int)
    requires k < |s| && n <= |taps|
  {
    if n == 0 then 0 else Conv(s, k, ch, taps, n - 1) + At(s, k - (n - 1) * ch) * taps[n - 1]
  }

  /** Clamp to 31 bits and take the upper 16 (the shift rounds down). */
  function Clamped(acc: int): (y: Sample) {
    (if acc > 0x3fffffff then 0x3fffffff else if acc < -0x40000000 then -0x40000000 else acc) / 0x8000
  }

  function Out(s: seq<Sample>, k: int, ch: nat, taps: seq<Sample>): (y: Sample)
    requires k < |s|
  {
    Clamped(Conv(s, k, ch, taps, |taps|))
  }

  /** The output for new samples x after the samples `past`. */
  function Filtered(past: seq<Sample>, x: seq<Sample>, ch: nat, taps: seq<Sample>): (y: seq<Sample>)
    ensures |y| == |x|
    ensures forall k :: 0 <= k < |x| ==> y[k] == Out(past + x, |past| + k, ch, taps)
  {
    seq<Sample>(|x|, k requires 0 <= k < |x| => Out(past + x, |past| + k, ch, taps))
  }

  /** The filter is causal. */
  lemma {:induction false} ConvPrefix(a: seq<Sample>, b: seq<Sample>, k: int, ch: nat, taps: seq<Sample>, n: nat)
    requires k < |a| && n <= |taps|
    ensures Conv(a + b, k, ch, taps, n) == Conv(a, k, ch, taps, n)
  {
    if n > 0 {
      ConvPrefix(a, b, k, ch, taps, n - 1);
      assert (n - 1) * ch >= 0;
      assert At(a + b, k - (n - 1) * ch) == At(a, k - (n - 1) * ch);
    }
  }

  /** Filtering may be cut anywhere. */
  lemma FilteredSplit(past: seq<Sample>, a: seq<Sample>, b: seq<Sample>, ch: nat, taps: seq<Sample>)
    ensures Filtered(past, a + b, ch, taps) == Filtered(past, a, ch, taps) + Filtered(past + a, b, ch, taps)
  {
    Assoc(past, a, b);
    forall k | 0 <= k < |a|
      ensures Filtered(past, a + b, ch, taps)[k] == Filtered(past, a, ch, taps)[k]
    {
      ConvPrefix(past + a, b, |past| + k, ch, taps, |taps|);
    }
    forall k | 0 <= k < |b|
      ensures Filtered(past, a + b, ch, taps)[|a| + k] == Filtered(past + a, b, ch, taps)[k]
    {
      assert |past + a| + k == |past| + (|a| + k);
    }
  }

  /** The outputs for one chunk after the other. */
  function FilterChunks(past: seq<Sample>, chunks: seq<seq<Sample>>, ch: nat, taps: seq<Sample>): (y: seq<Sample>)
    decreases |chunks|
  {
    if chunks == [] then []
    else Filtered(past, chunks[0], ch, taps) + FilterChunks(past + chunks[0], chunks[1..], ch, taps)
  }

  /** Filtering a stream in any chunks equals filtering it at once. */
  lemma {:induction false} AnyChunks(past: seq<Sample>, chunks: seq<seq<Sample>>, ch: nat, taps: seq<Sample>)
    ensures FilterChunks(past, chunks, ch, taps) == Filtered(past, Flatten(chunks), ch, taps)
    decreases |chunks|
  {
    if chunks != [] {
      AnyChunks(past + chunks[0], chunks[1..], ch, taps);
      FilteredSplit(past, chunks[0], Flatten(chunks[1..]), ch, taps);
    }
  }

  /** The samples of channel c. */
  function Channel(s: seq<Sample>, ch: nat, c: nat): (r: seq<Sample>)
    requires c < ch
    decreases |s|
  {
    if |s| <= c then [] else if |s| < ch then [s[c]] else [s[c]] + Channel(s[ch..], ch, c)
  }

  lemma {:induction false} ChannelAt(s: seq<Sample>, ch: nat, c: nat, i: nat)
    requires c < ch && i * ch + c < |s|
    ensures i < |Channel(s, ch, c)| && Channel(s, ch, c)[i] == s[i * ch + c]
    decreases |s|
  {
    assert i * ch >= 0;
    if i > 0 {
      assert i * ch == (i - 1) * ch + ch;
      assert (i - 1) * ch >= 0;
      ChannelAt(s[ch..], ch, c, i - 1);
      assert s[ch..][(i - 1) * ch + c] == s[i * ch + c];
    }
  }

  lemma OneTap(s: seq<Sample>, i: nat, c: nat, ch: nat, d: nat)
    requires c < ch && i * ch + c < |s|
    ensures i < |Channel(s, ch, c)| && d * ch >= 0
    ensures At(s, i * ch + c - d * ch) == At(Channel(s, ch, c), i - d * 1)
  {
    hide Channel;
    ChannelAt(s, ch, c, i);
    Distribute(i, d, ch);
    if d <= i {
      Nonneg(i - d, ch);
      ChannelAt(s, ch, c, i - d);
    } else {
      Distribute(d, i, ch);
      Distribute(d - i, 1, ch);
      Nonneg(d - i - 1, ch);
    }
    Nonneg(d, ch);
  }

  /** The channels do not mix: each is filtered as a stream of its own. */
  lemma {:induction false} ConvPerChannel(s: seq<Sample>, i: nat, c: nat, ch: nat, taps: seq<Sample>, n: nat)
    requires c < ch && i * ch + c < |s| && n <= |taps|
    ensures i < |Channel(s, ch, c)|
    ensures Conv(s, i * ch + c, ch, taps, n) == Conv(Channel(s, ch, c), i, 1, taps, n)
  {
    hide Channel, At;
    ChannelAt(s, ch, c, i);
    if n > 0 {
      ConvPerChannel(s, i, c, ch, taps, n - 1);
      OneTap(s, i, c, ch, n - 1);
    }
  }

  lemma PerChannel(s: seq<Sample>, i: nat, c: nat, ch: nat, taps: seq<Sample>)
    requires c < ch && i * ch + c < |s|
    ensures i < |Channel(s, ch, c)| && Out(s, i * ch + c, ch, taps) == Out(Channel(s, ch, c), i, 1, taps)
  {
    ConvPerChannel(s, i, c, ch, taps, |taps|);
  }

  // ---------------------------------------------------------------- downsampling

  /** C division by two, toward zero. */
  function Half(x: Sample): (h: Sample) {
    var n: int := x;
    if n < 0 then -((0 - n) / 2) else n / 2
  }

  datatype Layout = MonoToMono | MonoToStereo | StereoToMono | StereoToStereo

  function Ich(l: Layout): (n: nat) {
    if l.MonoToMono? || l.MonoToStereo? then 1 else 2
  }

  function Och(l: Layout): (n: nat) {
    if l.MonoToMono? || l.StereoToMono? then 1 else 2
  }

  /** One output frame from one input frame. */
  function Convert(l: Layout, frame: seq<Sample>): (out: seq<Sample>)
    requires |frame| == Ich(l)
    ensures |out| == Och(l)
  {
    match l
    case MonoToMono => frame
    case MonoToStereo => [frame[0], frame[0]]
    case StereoToMono => [Half(frame[0]) + Half(frame[1])]
    case StereoToStereo => frame
  }

  /** Every ratio-th frame of the input. */
  function Down(l: Layout, v: seq<Sample>, ratio: nat): (out: seq<Sample>)
    requires ratio > 0
    decreases |v|
  {
    if |v| < Ich(l) * ratio then []
    else Convert(l, v[..Ich(l)]) + Down(l, v[Ich(l) * ratio..], ratio)
  }

  lemma DownUnfold(l: Layout, v: seq<Sample>, ratio: nat)
    requires ratio > 0 && Ich(l) * ratio <= |v|
    ensures Ich(l) <= Ich(l) * ratio
    ensures Down(l, v, ratio) == Convert(l, v[..Ich(l)]) + Down(l, v[Ich(l) * ratio..], ratio)
  {
  }

  /** Output frame t is input frame t * ratio. */
  lemma {:induction false} DownAt(l: Layout, v: seq<Sample>, ratio: nat, t: nat, i: nat, o: nat)
    requires ratio > 0 && i == t * (Ich(l) * ratio) && o == t * Och(l) && i + Ich(l) * ratio <= |v|
    ensures o + Och(l) <= |Down(l, v, ratio)| && i + Ich(l) <= |v|
    ensures Down(l, v, ratio)[o..o + Och(l)] == Convert(l, v[i..i + Ich(l)])
    decreases t
  {
    hide Convert, Ich, Och, Down;
    var w := Ich(l) * ratio;
    DownUnfold(l, v, ratio);
    var first, rest := Convert(l, v[..Ich(l)]), Down(l, v[w..], ratio);
    if t == 0 {
      assert (first + rest)[..Och(l)] == first;
    } else {
      Distribute(t, 1, w);
      Distribute(t, 1, Och(l));
      Nonneg(t - 1, w);
      Nonneg(t - 1, Och(l));
      DownAt(l, v[w..], ratio, t - 1, i - w, o - Och(l));
      DownAtStep(l, v, w, i, first, rest, o - Och(l));
    }
  }

  lemma DownAtStep(l: Layout, v: seq<Sample>, w: nat, i: nat, first: seq<Sample>, rest: seq<Sample>, o: nat)
    requires w <= i && i + Ich(l) <= |v| && |first| == Och(l) && o + Och(l) <= |rest|
    ensures v[w..][i - w..i - w + Ich(l)] == v[i..i + Ich(l)]
    ensures (first + rest)[o + Och(l)..o + Och(l) + Och(l)] == rest[o..o + Och(l)]
  {
  }

  /** The number of output frames that auresamp reports for n input samples. */
  function FrameCount(l: Layout, n: nat, ratio: nat): (k: nat)
    requires ratio > 0
  {
    n / Ich(l) / ratio
  }

  lemma {:induction false} DownLength(l: Layout, v: seq<Sample>, ratio: nat)
    requires ratio > 0
    ensures |Down(l, v, ratio)| == FrameCount(l, |v|, ratio) * Och(l)
    decreases |v|
  {
    hide Convert, FrameCount, Down, Ich, Och;
    var w := Ich(l) * ratio;
    Positive(l, ratio);
    if |v| < w {
      CountBelow(l, |v|, ratio);
      DownShort(l, v, ratio);
    } else {
      DownUnfold(l, v, ratio);
      DownLength(l, v[w..], ratio);
      CountStep(l, |v|, ratio);
      Distribute(FrameCount(l, |v|, ratio), 1, Och(l));
    }
  }

  lemma DownShort(l: Layout, v: seq<Sample>, ratio: nat)
    requires ratio > 0 && |v| < Ich(l) * ratio
    ensures Down(l, v, ratio) == []
  {
  }

  lemma CountBelow(l: Layout, n: nat, ratio: nat)
    requires ratio > 0 && n < Ich(l) * ratio
    ensures FrameCount(l, n, ratio) == 0
  {
    assert n / Ich(l) < ratio;
  }

  lemma CountStep(l: Layout, n: nat, ratio: nat)
    requires ratio > 0 && n >= Ich(l) * ratio
    ensures FrameCount(l, n, ratio) == FrameCount(l, n - Ich(l) * ratio, ratio) + 1
  {
    var m := n - Ich(l) * ratio;
    assert n / Ich(l) == m / Ich(l) + ratio;
    DivPlus(m / Ich(l), ratio);
  }

  /** Chunks of whole output frames may be downsampled one by one. */
  lemma {:induction false} DownSplit(l: Layout, a: seq<Sample>, b: seq<Sample>, ratio: nat)
    requires ratio > 0 && |a| % (Ich(l) * ratio) == 0
    ensures Down(l, a + b, ratio) == Down(l, a, ratio) + Down(l, b, ratio)
    decreases |a|
  {
    hide Convert, Ich, Down;
    var w := Ich(l) * ratio;
    if |a| < w {
      Small(|a|, w);
      NoFrames(l, ratio);
      assert a + b == b;
    } else {
      Positive(l, ratio);
      DownUnfold(l, a, ratio);
      DownUnfold(l, a + b, ratio);
      assert (a + b)[w..] == a[w..] + b && (a + b)[..Ich(l)] == a[..Ich(l)];
      Shrink(|a|, w);
      DownSplit(l, a[w..], b, ratio);
      Assoc(Convert(l, a[..Ich(l)]), Down(l, a[w..], ratio), Down(l, b, ratio));
    }
  }

  lemma Positive(l: Layout, ratio: nat)
    requires ratio > 0
    ensures Ich(l) * ratio > 0
  {
  }

  lemma Small(n: nat, w: nat)
    requires n < w && n % w == 0
    ensures n == 0
  {
    DivUnique(n, w, 0, n);
  }

  lemma Shrink(n: nat, w: nat)
    requires 0 < w <= n && n % w == 0
    ensures (n - w) % w == 0
  {
    DivUnique(n - w, w, n / w - 1, 0);
  }

  /** auresamp when downsampling, chunk after chunk. */
  function ResampleChunks(l: Layout, past: seq<Sample>, chunks: seq<seq<Sample>>, taps: seq<Sample>, ratio: nat): (y: seq<Sample>)
    requires ratio > 0
    decreases |chunks|
  {
    if chunks == [] then []
    else Down(l, Filtered(past, chunks[0], Ich(l), taps), ratio)
         + ResampleChunks(l, past + chunks[0], chunks[1..], taps, ratio)
  }

  /**
   With chunks of whole output frames, resampling in chunks is filtering the whole stream and keeping
   every ratio-th frame of it.
   */
  lemma {:induction false} ResampleAnyChunks(l: Layout, past: seq<Sample>, chunks: seq<seq<Sample>>, taps: seq<Sample>, ratio: nat)
    requires ratio > 0 && forall c :: c in chunks ==> |c| % (Ich(l) * ratio) == 0
    ensures ResampleChunks(l, past, chunks, taps, ratio) == Down(l, Filtered(past, Flatten(chunks), Ich(l), taps), ratio)
    decreases |chunks|
  {
    hide Down, Filtered;
    if chunks == [] {
      NoFrames(l, ratio);
    } else {
      assert chunks[0] in chunks;
      var past' := past + chunks[0];
      ResampleAnyChunks(l, past', chunks[1..], taps, ratio);
      FilteredSplit(past, chunks[0], Flatten(chunks[1..]), Ich(l), taps);
      DownSplit(l, Filtered(past, chunks[0], Ich(l), taps), Filtered(past', Flatten(chunks[1..]), Ich(l), taps), ratio);
    }
  }

  lemma NoFrames(l: Layout, ratio: nat)
    requires ratio > 0
    ensures Down(l, [], ratio) == []
  {
  }

  // ---------------------------------------------------------------- what it means

  /** The output is the upper 16 of 31 bits, rounded down, and saturates at the ends of an int16_t. */
  lemma Saturates(acc: int)
    ensures var y: int := Clamped(acc);
            && -32768 <= y <= 32767
            && (y > -32768 ==> 32768 * y <= acc)
            && (y < 32767 ==> acc < 32768 * y + 32768)
  {
  }

  /** Before the clamp, one sample of size x comes out as x times each tap in order, then as silence. */
  lemma {:induction false} ImpulseResponse(s: seq<Sample>, k: nat, taps: seq<Sample>, n: nat)
    requires k < |s| && n <= |taps| && forall i :: 0 < i < |s| ==> s[i] == 0
    ensures Conv(s, k, 1, taps, n) == if k < n then s[0] as int * taps[k] else 0
  {
    if n > 0 {
      ImpulseResponse(s, k, taps, n - 1);
      assert (n - 1) * 1 == n - 1;
    }
  }

  /** Filters add up: the convolution of a sum is the sum of the convolutions. */
  lemma {:induction false} ConvAdds(a: seq<Sample>, b: seq<Sample>, c: seq<Sample>, k: int, ch: nat, taps: seq<Sample>, n: nat)
    requires k < |a| == |b| == |c| && n <= |taps|
    requires forall i :: 0 <= i < |a| ==> c[i] == a[i] as int + b[i]
    ensures Conv(c, k, ch, taps, n) == Conv(a, k, ch, taps, n) + Conv(b, k, ch, taps, n)
  {
    if n > 0 {
      ConvAdds(a, b, c, k, ch, taps, n - 1);
      Nonneg(n - 1, ch);
      var i := k - (n - 1) * ch;
      Commute(At(c, i), taps[n - 1]);
      Commute(At(a, i), taps[n - 1]);
      Commute(At(b, i), taps[n - 1]);
      SumOfProducts(taps[n - 1], At(a, i), At(b, i));
      assert At(c, i) == At(a, i) as int + At(b, i);
    }
  }

  /** Half of a sample, toward zero. */
  lemma HalfIs(x: Sample)
    ensures var h: int := Half(x);
            && (x >= 0 ==> 0 <= x - 2 * h <= 1 && h >= 0)
            && (x <= 0 ==> 0 <= 2 * h - x <= 1 && h <= 0)
  {
  }

  /** Width of an input frame and of what one output frame takes from the input. */
  lemma Widths(l: Layout, ratio: nat)
    ensures Ich(l) * ratio == if l.MonoToMono? || l.MonoToStereo? then ratio else 2 * ratio
  {
  }

  lemma Pick(d: seq<Sample>, o: nat)
    ensures o < |d| ==> d[o..o + 1] == [d[o]]
    ensures o + 1 < |d| ==> d[o..o + 2] == [d[o], d[o + 1]]
  {
  }

  /** Output frame t of mono input is sample t * ratio of it, once or twice. */
  lemma DownMono(v: seq<Sample>, ratio: nat, t: nat, i: nat)
    requires ratio > 0 && i == t * ratio && i + ratio <= |v|
    ensures |Down(MonoToMono, v, ratio)| > t && Down(MonoToMono, v, ratio)[t] == v[i]
    ensures |Down(MonoToStereo, v, ratio)| > 2 * t + 1
    ensures Down(MonoToStereo, v, ratio)[2 * t] == v[i] && Down(MonoToStereo, v, ratio)[2 * t + 1] == v[i]
  {
    hide Down;
    Widths(MonoToMono, ratio);
    Widths(MonoToStereo, ratio);
    DownAt(MonoToMono, v, ratio, t, i, t);
    DownAt(MonoToStereo, v, ratio, t, i, 2 * t);
    Pick(Down(MonoToMono, v, ratio), t);
    Pick(Down(MonoToStereo, v, ratio), 2 * t);
    Pick(v, i);
  }

  /** Output frame t of stereo input is the pair t * ratio of it, as it is or halved and added. */
  lemma DownStereo(v: seq<Sample>, ratio: nat, t: nat, i: nat)
    requires ratio > 0 && i == t * (2 * ratio) && i + 2 * ratio <= |v|
    ensures |Down(StereoToMono, v, ratio)| > t
    ensures Down(StereoToMono, v, ratio)[t] == Half(v[i]) + Half(v[i + 1])
    ensures |Down(StereoToStereo, v, ratio)| > 2 * t + 1
    ensures Down(StereoToStereo, v, ratio)[2 * t] == v[i] && Down(StereoToStereo, v, ratio)[2 * t + 1] == v[i + 1]
  {
    hide Down, Half;
    Widths(StereoToMono, ratio);
    Widths(StereoToStereo, ratio);
    DownAt(StereoToMono, v, ratio, t, i, t);
    DownAt(StereoToStereo, v, ratio, t, i, 2 * t);
    Pick(Down(StereoToMono, v, ratio), t);
    Pick(Down(StereoToStereo, v, ratio), 2 * t);
    Pick(v, i);
  }
}
