/** The downsampling functions of resamp.c, which may write over the array they read, and auresamp. */
module ResampCode {
  import opened Bytes
  import opened Fir
  import opened FirCode

  /** One turn of a downsampling loop. */
  lemma DownTurn(l: Layout, x: seq<Sample>, r: nat, ratio: nat, done: seq<Sample>)
    requires ratio > 0 && r + Ich(l) * ratio <= |x|
    ensures Ich(l) <= Ich(l) * ratio
    ensures var frame := x[r..r + Ich(l)];
            && Down(l, x[r..], ratio) == Convert(l, frame) + Down(l, x[r + Ich(l) * ratio..], ratio)
            && done + Down(l, x[r..], ratio) == (done + Convert(l, frame)) + Down(l, x[r + Ich(l) * ratio..], ratio)
  {
    hide Convert, Down;
    DownUnfold(l, x[r..], ratio);
    assert x[r..][..Ich(l)] == x[r..r + Ich(l)];
    assert x[r..][Ich(l) * ratio..] == x[r + Ich(l) * ratio..];
  }

  lemma DownEnds(l: Layout, x: seq<Sample>, ratio: nat)
    requires ratio > 0 && |x| < Ich(l) * ratio
    ensures Down(l, x, ratio) == []
  {
  }

  /** What every downsampling loop keeps: o samples written, the input from r on still as it was. */
  ghost predicate Going(l: Layout, x: seq<Sample>, ratio: nat, out: seq<Sample>, inv: seq<Sample>, o: nat, r: nat)
    requires ratio > 0
  {
    && o <= |out| && r <= |x| <= |inv|
    && out[..o] + Down(l, x[r..], ratio) == Down(l, x, ratio)
    && (forall i :: r <= i < |x| ==> inv[i] == x[i])
  }

  lemma GoingStarts(l: Layout, ratio: nat, out: seq<Sample>, inv: seq<Sample>, inc: nat)
    requires ratio > 0 && inc <= |inv|
    ensures Going(l, inv[..inc], ratio, out, inv, 0, 0)
  {
    var x := inv[..inc];
    assert x[0..] == x && out[..0] == [];
  }

  /** The next input frame is as it was, and its output has room. */
  lemma GoingRoom(l: Layout, x: seq<Sample>, ratio: nat, out: seq<Sample>, inv: seq<Sample>, o: nat, r: nat, w: nat)
    requires ratio > 0 && Going(l, x, ratio, out, inv, o, r) && w == Ich(l) * ratio && r + w <= |x|
    ensures Ich(l) <= w && o + Och(l) <= |Down(l, x, ratio)|
    ensures |x| <= |inv| && forall i :: r <= i < |x| ==> inv[i] == x[i]
  {
    hide Convert, Down;
    DownTurn(l, x, r, ratio, out[..o]);
  }

  /** Writing the next output frame leads on, if the input behind it was left alone. */
  lemma GoingOn(l: Layout, x: seq<Sample>, ratio: nat, out: seq<Sample>, inv: seq<Sample>, o: nat, r: nat, w: nat,
                out': seq<Sample>, inv': seq<Sample>)
    requires ratio > 0 && Going(l, x, ratio, out, inv, o, r) && w == Ich(l) * ratio && Ich(l) <= w && r + w <= |x|
    requires o + Och(l) <= |out'| && |inv'| == |inv|
    requires out'[..o + Och(l)] == out[..o] + Convert(l, x[r..r + Ich(l)])
    requires forall i :: r + w <= i < |inv| ==> inv'[i] == inv[i]
    ensures Going(l, x, ratio, out', inv', o + Och(l), r + w)
  {
    hide Convert, Down;
    DownTurn(l, x, r, ratio, out[..o]);
  }

  lemma GoingEnds(l: Layout, x: seq<Sample>, ratio: nat, out: seq<Sample>, inv: seq<Sample>, o: nat, r: nat)
    requires ratio > 0 && Going(l, x, ratio, out, inv, o, r) && |x| - r < Ich(l) * ratio
    ensures o == |Down(l, x, ratio)| && out[..o] == Down(l, x, ratio)
  {
    DownEnds(l, x[r..], ratio);
  }

  method DownMonoToMono(outv: array<Sample>, inv: array<Sample>, inc: nat, ratio: nat)
    requires ratio > 0 && inc <= inv.Length
    requires |Down(Layout.MonoToMono, inv[..inc], ratio)| <= outv.Length
    modifies outv
    ensures var d := Down(Layout.MonoToMono, old(inv[..inc]), ratio); outv[..|d|] == d
  {
    hide Down, Going;
    ghost var x, l := inv[..inc], Layout.MonoToMono;
    GoingStarts(l, ratio, outv[..], inv[..], inc);
    var o, r := 0, 0;
    while inc - r >= ratio
      invariant r <= inc && (outv == inv ==> o <= r)
      invariant Going(l, x, ratio, outv[..], inv[..], o, r)
    {
      ghost var out0, in0 := outv[..], inv[..];
      GoingRoom(l, x, ratio, out0, in0, o, r, ratio);
      outv[o] := inv[r];
      assert outv[..o + 1] == out0[..o] + x[r..r + 1];
      GoingOn(l, x, ratio, out0, in0, o, r, ratio, outv[..], inv[..]);
      o, r := o + 1, r + ratio;
    }
    GoingEnds(l, x, ratio, outv[..], inv[..], o, r);
  }

  method DownMonoToStereo(outv: array<Sample>, inv: array<Sample>, inc: nat, ratio: nat)
    requires ratio > 0 && (outv == inv ==> ratio >= 2) && inc <= inv.Length
    requires |Down(Layout.MonoToStereo, inv[..inc], ratio)| <= outv.Length
    modifies outv
    ensures var d := Down(Layout.MonoToStereo, old(inv[..inc]), ratio); outv[..|d|] == d
  {
    hide Down, Going;
    ghost var x, l := inv[..inc], Layout.MonoToStereo;
    GoingStarts(l, ratio, outv[..], inv[..], inc);
    var o, r := 0, 0;
    while inc - r >= ratio
      invariant r <= inc && (outv == inv ==> o <= r)
      invariant Going(l, x, ratio, outv[..], inv[..], o, r)
    {
      ghost var out0, in0 := outv[..], inv[..];
      GoingRoom(l, x, ratio, out0, in0, o, r, ratio);
      outv[o] := inv[r];
      outv[o + 1] := inv[r];
      assert outv[..o + 2] == out0[..o] + [x[r], x[r]];
      GoingOn(l, x, ratio, out0, in0, o, r, ratio, outv[..], inv[..]);
      o, r := o + 2, r + ratio;
    }
    GoingEnds(l, x, ratio, outv[..], inv[..], o, r);
  }

  method DownStereoToMono(outv: array<Sample>, inv: array<Sample>, inc: nat, ratio0: nat)
    requires ratio0 > 0 && inc <= inv.Length
    requires |Down(Layout.StereoToMono, inv[..inc], ratio0)| <= outv.Length
    modifies outv
    ensures var d := Down(Layout.StereoToMono, old(inv[..inc]), ratio0); outv[..|d|] == d
  {
    hide Down, Going;
    ghost var x, l := inv[..inc], Layout.StereoToMono;
    GoingStarts(l, ratio0, outv[..], inv[..], inc);
    var ratio := ratio0 * 2;
    var o, r := 0, 0;
    while inc - r >= ratio
      invariant r <= inc && (outv == inv ==> o <= r)
      invariant Going(l, x, ratio0, outv[..], inv[..], o, r)
    {
      ghost var out0, in0 := outv[..], inv[..];
      GoingRoom(l, x, ratio0, out0, in0, o, r, ratio);
      outv[o] := Half(inv[r]) + Half(inv[r + 1]);
      assert outv[..o + 1] == out0[..o] + Convert(l, x[r..r + 2]);
      GoingOn(l, x, ratio0, out0, in0, o, r, ratio, outv[..], inv[..]);
      o, r := o + 1, r + ratio;
    }
    GoingEnds(l, x, ratio0, outv[..], inv[..], o, r);
  }

  method DownStereoToStereo(outv: array<Sample>, inv: array<Sample>, inc: nat, ratio0: nat)
    requires ratio0 > 0 && inc <= inv.Length
    requires |Down(Layout.StereoToStereo, inv[..inc], ratio0)| <= outv.Length
    modifies outv
    ensures var d := Down(Layout.StereoToStereo, old(inv[..inc]), ratio0); outv[..|d|] == d
  {
    hide Down, Going;
    ghost var x, l := inv[..inc], Layout.StereoToStereo;
    GoingStarts(l, ratio0, outv[..], inv[..], inc);
    var ratio := ratio0 * 2;
    var o, r := 0, 0;
    while inc - r >= ratio
      invariant r <= inc && (outv == inv ==> o <= r)
      invariant Going(l, x, ratio0, outv[..], inv[..], o, r)
    {
      ghost var out0, in0 := outv[..], inv[..];
      GoingRoom(l, x, ratio0, out0, in0, o, r, ratio);
      outv[o] := inv[r];
      outv[o + 1] := inv[r + 1];
      assert outv[..o + 2] == out0[..o] + x[r..r + 2];
      GoingOn(l, x, ratio0, out0, in0, o, r, ratio, outv[..], inv[..]);
      o, r := o + 2, r + ratio;
    }
    GoingEnds(l, x, ratio0, outv[..], inv[..], o, r);
  }

  /** struct auresamp set up for downsampling. */
  class Downsampler {
    const fir: FirFilter
    const layout: Layout
    const ratio: nat
    const taps: seq<Sample>

    ghost predicate Valid()
      reads this, fir, fir.history
    {
      ratio >= 2 && |taps| == 32 && fir.Valid(Ich(layout) * 32)
    }

    constructor (layout: Layout, ratio: nat, taps: seq<Sample>)
      requires ratio >= 2 && |taps| == 32
      ensures Valid() && fir.past == [] && fresh(fir) && fresh(fir.history)
      ensures this.layout == layout && this.ratio == ratio && this.taps == taps
    {
      fir := new FirFilter();
      this.layout, this.ratio, this.taps := layout, ratio, taps;
      new;
      assert RingSize(Ich(layout) * 32);
    }

    /** The resampling function chosen by the channel counts. */
    method Select(v: array<Sample>, inc: nat)
      requires ratio >= 2 && inc <= v.Length && |Down(layout, v[..inc], ratio)| <= v.Length
      modifies v
      ensures var d := Down(layout, old(v[..inc]), ratio); v[..|d|] == d
    {
      match layout
      case MonoToMono => DownMonoToMono(v, v, inc, ratio);
      case MonoToStereo => DownMonoToStereo(v, v, inc, ratio);
      case StereoToMono => DownStereoToMono(v, v, inc, ratio);
      case StereoToStereo => DownStereoToStereo(v, v, inc, ratio);
    }

    /** auresamp: filter into the output, then downsample it in place. None is ENOMEM. */
    method Resample(outv: array<Sample>, outc: nat, inv: array<Sample>, inc: nat) returns (r: Option<nat>)
      requires Valid() && outc <= outv.Length && inc <= inv.Length
      requires outv != fir.history && inv != fir.history
      modifies fir, fir.history, outv
      ensures Valid()
      ensures r == None <==> outc < FrameCount(layout, inc, ratio) * Och(layout) || outc < inc
      ensures r == None ==> fir.past == old(fir.past) && outv[..] == old(outv[..])
      ensures r != None ==>
                var d := Down(layout, Filtered(old(fir.past), old(inv[..inc]), Ich(layout), taps), ratio);
                fir.past == old(fir.past) + old(inv[..inc]) && r == Some(|d|) && |d| <= outv.Length && outv[..|d|] == d
    {
      hide Filtered, Down, FrameCount;
      var n := FrameCount(layout, inc, ratio) * Och(layout);
      if outc < n || outc < inc {
        return None;
      }
      assert RingSize(Ich(layout) * |taps|);
      ghost var y := Filtered(fir.past, inv[..inc], Ich(layout), taps);
      assert |y| == inc by { FilteredLength(fir.past, inv[..inc], Ich(layout), taps); }
      fir.Filter(outv, inv, inc, Ich(layout), taps);
      DownLength(layout, y, ratio);
      Select(outv, inc);
      r := Some(n);
    }
  }

  lemma FilteredLength(past: seq<Sample>, x: seq<Sample>, ch: nat, taps: seq<Sample>)
    ensures |Filtered(past, x, ch, taps)| == |x|
  {
  }
}
