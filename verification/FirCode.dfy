/** fir.c and the downsampling half of resamp.c as they update their ring and arrays in place. */
module FirCode {
  import opened Arith
  import opened Bytes
  import opened Fir

  const HISTORY := 256
  const WRAP := 0x1_0000_0000

  ghost predicate RingSize(m: nat) {
    m in {1, 2, 4, 8, 16, 32, 64, 128, 256}
  }

  /** Bitwise and. */
  function And(a: nat, b: nat): (r: nat) {
    if a == 0 || b == 0 then 0 else 2 * And(a / 2, b / 2) + (if a % 2 == 1 && b % 2 == 1 then 1 else 0)
  }

  predicate PowerOfTwo(m: nat) {
    m == 1 || (m > 0 && m % 2 == 0 && PowerOfTwo(m / 2))
  }

  lemma {:induction false} AndSelf(a: nat)
    ensures And(a, a) == a
  {
    if a > 0 {
      AndSelf(a / 2);
    }
  }

  /** A number has no bit in common with the one below it exactly when it is a power of two. */
  lemma {:induction false} MaskTest(m: nat)
    requires m > 0
    ensures And(m - 1, m) == 0 <==> PowerOfTwo(m)
  {
    if m % 2 == 1 {
      AndSelf(m / 2);
    } else {
      MaskTest(m / 2);
    }
  }

  lemma {:induction false} PowerCases(m: nat)
    requires PowerOfTwo(m) && m <= HISTORY
    ensures RingSize(m)
  {
    if m > 1 {
      PowerCases(m / 2);
    }
  }

  lemma {:induction false} CasePowers(m: nat)
    requires RingSize(m)
    ensures PowerOfTwo(m)
  {
    if m > 1 {
      CasePowers(m / 2);
    }
  }

  /** The test of the mask: a power of two of at most 256. */
  method SizeOk(m: nat) returns (ok: bool)
    requires m < WRAP
    ensures ok <==> RingSize(m)
  {
    if m == 0 || m - 1 >= HISTORY {
      return false;
    }
    var mask := m - 1;
    MaskTest(m);
    ok := And(mask, mask + 1) == 0;
    if ok {
      PowerCases(m);
    } else if RingSize(m) {
      CasePowers(m);
    }
  }

  /** Masking an index that wraps at 2^32 is masking the count of samples. */
  lemma WrapMask(x: int, m: nat)
    requires RingSize(m)
    ensures x % WRAP % m == x % m
  {
    ModMod(x, m, WRAP / m);
  }

  lemma ModMod(x: int, m: nat, k: nat)
    requires m > 0 && k > 0 && m * k == WRAP
    ensures x % WRAP % m == x % m
  {
    var q, r := x / WRAP, x % WRAP;
    var a, b := r / m, r % m;
    assert r == m * a + b;
    assert x == WRAP * q + r;
    assert m * (k * q + a) == m * k * q + m * a;
    DivUnique(x, m, k * q + a, b);
  }

  lemma WrapBack(x: int, y: int)
    ensures (x % WRAP - y) % WRAP == (x - y) % WRAP
  {
  }

  /** The slot of sample k of the stream. */
  function Slot(k: int, m: nat): (i: nat)
    requires m > 0
    ensures i < m
  {
    k % m
  }

  /** Two samples less than m apart do not share a slot. */
  lemma SlotsDiffer(k: int, x: int, m: nat)
    requires RingSize(m) && x - m < k < x
    ensures Slot(k, m) != Slot(x, m)
  {
    hide RingSize;
    Sizes(m);
    if Slot(k, m) == Slot(x, m) {
      var a, b := x / m, k / m;
      assert x - k == m * a - m * b == m * (a - b);
      Multiple(m, a - b);
    }
  }

  /** The ring holds the last m samples of the stream. */
  ghost predicate Holds(h: seq<Sample>, past: seq<Sample>, m: nat) {
    |h| == HISTORY && 0 < m <= HISTORY &&
    forall k :: |past| - m <= k < |past| ==> h[Slot(k, m)] == At(past, k)
  }

  lemma Pushed(h: seq<Sample>, past: seq<Sample>, m: nat, x: Sample)
    requires RingSize(m) && Holds(h, past, m)
    ensures Holds(h[Slot(|past|, m) := x], past + [x], m)
  {
    hide RingSize, Slot;
    var n := |past|;
    var h', past' := h[Slot(n, m) := x], past + [x];
    forall k | n + 1 - m <= k < n + 1
      ensures h'[Slot(k, m)] == At(past', k)
    {
      if k < n {
        SlotsDiffer(k, n, m);
        assert h[Slot(k, m)] == At(past, k);
      }
    }
  }

  lemma Empty(m: nat)
    requires RingSize(m)
    ensures Holds(seq(HISTORY, i => 0), [], m)
  {
  }

  lemma TapInRange(i: nat, n: nat, ch: nat)
    requires i < n
    ensures 0 <= i * ch <= ch * n - ch
  {
    Nonneg(i, ch);
    Distribute(n, i, ch);
    Distribute(n - i, 1, ch);
    Nonneg(n - i - 1, ch);
  }

  /** What the ring gives for tap i is the sample i frames back. */
  lemma Tap(h: seq<Sample>, s: seq<Sample>, m: nat, ch: nat, n: nat, i: nat, j: nat, k: int)
    requires RingSize(m) && m == ch * n && i < n && Holds(h, s, m) && s != []
    requires k == |s| - 1 - i * ch && j == k % WRAP
    ensures k < |s| && 0 <= j % m < HISTORY == |h| && h[j % m] == At(s, k)
  {
    hide RingSize;
    Factor(ch, n);
    TapInRange(i, n, ch);
    WrapMask(k, m);
    assert h[Slot(k, m)] == At(s, k);
  }

  lemma Factor(ch: nat, n: nat)
    requires ch * n > 0
    ensures ch > 0
  {
  }

  lemma ProductBound(x: Sample, y: Sample)
    ensures -0x40000000 <= x * y <= 0x40000000
  {
    var a: int, b: int := x, y;
    if a >= 0 && b >= 0 { Corner(a, b); }
    else if a >= 0 { Corner(a, -b); }
    else if b >= 0 { Corner(-a, b); }
    else { Corner(-a, -b); }
  }

  lemma Corner(a: nat, b: nat)
    requires a <= 0x8000 && b <= 0x8000
    ensures 0 <= a * b <= 0x40000000
  {
    Distribute(0x8000, b, a);
    Nonneg(0x8000 - b, a);
    Nonneg(a, b);
  }

  /** struct fir */
  class FirFilter {
    const history: array<Sample>
    var index: nat
    /** Everything filtered since the last reset. */
    ghost var past: seq<Sample>

    ghost predicate Valid(m: nat)
      reads this, history
    {
      history.Length == HISTORY && index == |past| % WRAP && Holds(history[..], past, m)
    }

    constructor ()
      ensures forall m :: RingSize(m) ==> Valid(m)
      ensures past == [] && fresh(history)
    {
      history := new Sample[HISTORY](i => 0);
      index, past := 0, [];
      new;
      assert history[..] == seq(HISTORY, i => 0);
      forall m | RingSize(m) ensures Valid(m) {
        Empty(m);
      }
    }

    /** fir_reset */
    method Reset()
      requires history.Length == HISTORY
      modifies this, history
      ensures forall m :: RingSize(m) ==> Valid(m)
      ensures past == []
    {
      var i := 0;
      while i < HISTORY
        invariant 0 <= i <= HISTORY
        invariant forall k :: 0 <= k < i ==> history[k] == 0
      {
        history[i] := 0;
        i := i + 1;
      }
      index, past := 0, [];
      assert history[..] == seq(HISTORY, i => 0);
      forall m | RingSize(m) ensures Valid(m) {
        Empty(m);
      }
    }

    /** The accumulation over the taps; the 64-bit accumulator does not overflow. */
    method Accumulate(j0: nat, ch: nat, taps: seq<Sample>) returns (acc: int)
      requires past != [] && RingSize(ch * |taps|) && history.Length == HISTORY
      requires j0 == (|past| - 1) % WRAP && Holds(history[..], past, ch * |taps|)
      ensures acc == Conv(past, |past| - 1, ch, taps, |taps|)
    {
      hide Holds, RingSize, Conv, At;
      var m := ch * |taps|;
      var i, j := 0, j0;
      ghost var k := |past| - 1;
      acc := 0;
      Sizes(m);
      ConvNone(past, k, ch, taps);
      while i < |taps|
        invariant 0 <= i <= |taps| && k == |past| - 1 - i * ch && j == k % WRAP
        invariant acc == Conv(past, |past| - 1, ch, taps, i)
        invariant -i * 0x40000000 <= acc <= i * 0x40000000
      {
        Tap(history[..], past, m, ch, |taps|, i, j, k);
        ConvMore(past, ch, taps, i, k);
        ProductBound(history[j % m], taps[i]);
        var h: int, t: int := history[j % m], taps[i];
        acc := acc + h * t;
        WrapBack(k, ch);
        Distribute(i + 1, i, ch);
        i, j, k := i + 1, (j - ch) % WRAP, k - ch;
      }
    }

    /** One sample through the filter. */
    method Step(x: Sample, ch: nat, taps: seq<Sample>) returns (y: Sample)
      requires RingSize(ch * |taps|) && Valid(ch * |taps|)
      modifies this, history
      ensures Valid(ch * |taps|) && past == old(past) + [x]
      ensures y == Out(past, |past| - 1, ch, taps)
    {
      hide Holds, RingSize, Conv, Slot, Clamped;
      var m := ch * |taps|;
      Sizes(m);
      Put(history[..], past, m, x, index);
      history[index % m] := x;
      past := past + [x];
      var acc := Accumulate(index, ch, taps);
      NextIndex(|past| - 1);
      index := (index + 1) % WRAP;
      y := Clamp(acc);
    }

    /**
     fir_filter. The output may be the input array. With a product of channels and taps that is not a
     power of two up to 256 nothing happens.
     */
    method Filter(outv: array<Sample>, inv: array<Sample>, inc: nat, ch: nat, taps: seq<Sample>)
      requires inc <= inv.Length && inc <= outv.Length && ch * |taps| < WRAP
      requires outv != history && inv != history && history.Length == HISTORY
      requires RingSize(ch * |taps|) ==> Valid(ch * |taps|)
      modifies this, history, outv
      ensures !RingSize(ch * |taps|) ==> past == old(past) && outv[..] == old(outv[..]) && history[..] == old(history[..])
      ensures RingSize(ch * |taps|) ==>
                && Valid(ch * |taps|)
                && past == old(past) + old(inv[..inc])
                && outv[..inc] == Filtered(old(past), old(inv[..inc]), ch, taps)
                && outv[inc..] == old(outv[inc..])
    {
      var ok := SizeOk(ch * |taps|);
      if ok {
        FilterAll(outv, inv, inc, ch, taps);
      }
    }

    /** The loop over the samples. */
    method FilterAll(outv: array<Sample>, inv: array<Sample>, inc: nat, ch: nat, taps: seq<Sample>)
      requires inc <= inv.Length && inc <= outv.Length
      requires outv != history && inv != history && RingSize(ch * |taps|) && Valid(ch * |taps|)
      modifies this, history, outv
      ensures Valid(ch * |taps|)
      ensures past == old(past) + old(inv[..inc])
      ensures outv[..inc] == Filtered(old(past), old(inv[..inc]), ch, taps)
      ensures outv[inc..] == old(outv[inc..])
    {
      hide RingSize, Out, Valid, Filtered;
      ghost var x, p0, tail := inv[..inc], past, outv[inc..];
      var k := 0;
      FilteredNone(p0, x, ch, taps);
      Unfold(ch * |taps|);
      while k < inc
        invariant 0 <= k <= inc && Valid(ch * |taps|)
        invariant past == p0 + x[..k]
        invariant forall i :: k <= i < inc ==> inv[i] == x[i]
        invariant outv[..k] == Filtered(p0, x[..k], ch, taps)
        invariant outv[inc..] == tail
      {
        FilteredStep(p0, x, k, ch, taps);
        var y := Step(inv[k], ch, taps);
        ghost var before := outv[..k];
        outv[k] := y;
        assert outv[..k] == before;
        assert outv[..k + 1] == before + [y];
        k := k + 1;
      }
      assert x[..inc] == x;
    }

    lemma Unfold(m: nat)
      requires Valid(m)
      ensures history.Length == HISTORY
    {
    }
  }

  lemma FilteredNone(past: seq<Sample>, x: seq<Sample>, ch: nat, taps: seq<Sample>)
    ensures past + x[..0] == past && Filtered(past, x[..0], ch, taps) == []
  {
  }

  lemma ConvNone(s: seq<Sample>, k: int, ch: nat, taps: seq<Sample>)
    requires k < |s|
    ensures Conv(s, k, ch, taps, 0) == 0
  {
  }

  lemma ConvMore(s: seq<Sample>, ch: nat, taps: seq<Sample>, i: nat, k: int)
    requires s != [] && i < |taps| && k == |s| - 1 - i * ch < |s|
    ensures var x: int, t: int := At(s, k), taps[i];
            Conv(s, |s| - 1, ch, taps, i + 1) == Conv(s, |s| - 1, ch, taps, i) + x * t
  {
  }

  lemma Put(h: seq<Sample>, past: seq<Sample>, m: nat, x: Sample, index: nat)
    requires RingSize(m) && Holds(h, past, m) && index == |past| % WRAP
    ensures 0 < m && 0 <= index % m < HISTORY == |h| && Holds(h[index % m := x], past + [x], m)
  {
    hide RingSize, Holds;
    Sizes(m);
    WrapMask(|past|, m);
    HoldsLength(h, past, m);
    Pushed(h, past, m, x);
  }

  lemma HoldsLength(h: seq<Sample>, past: seq<Sample>, m: nat)
    requires Holds(h, past, m)
    ensures |h| == HISTORY
  {
  }

  method Clamp(acc0: int) returns (y: Sample)
    ensures y == Clamped(acc0)
  {
    var acc := acc0;
    if acc > 0x3fffffff {
      acc := 0x3fffffff;
    } else if acc < -0x40000000 {
      acc := -0x40000000;
    }
    y := acc / 0x8000;
  }

  lemma Sizes(m: nat)
    requires RingSize(m)
    ensures 0 < m <= HISTORY
  {
  }

  lemma NextIndex(n: nat)
    ensures (n % WRAP + 1) % WRAP == (n + 1) % WRAP
  {
  }

  lemma FilteredStep(past: seq<Sample>, x: seq<Sample>, k: nat, ch: nat, taps: seq<Sample>)
    requires k < |x|
    ensures past + x[..k + 1] == (past + x[..k]) + [x[k]]
    ensures Filtered(past, x[..k + 1], ch, taps) ==
            Filtered(past, x[..k], ch, taps) + [Out((past + x[..k]) + [x[k]], |past| + k, ch, taps)]
  {
    assert x[..k + 1] == x[..k] + [x[k]];
    FilteredSplit(past, x[..k], [x[k]], ch, taps);
    Assoc(past, x[..k], [x[k]]);
  }
}
