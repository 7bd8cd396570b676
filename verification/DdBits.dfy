/**
 Bits, most significant first: the bit writer of dd/putbit.c, the bit reader of h264/getbit.c, and
 the non-symmetric code ns(n) of section 4.10.7 of the AV1 specification.
 */
module DdBits {
  import opened Arith
  import opened Bytes

  type Bits = seq<bool>

  function Pow2(n: nat): (p: nat)
    ensures p >= 1
  {
    if n == 0 then 1 else 2 * Pow2(n - 1)
  }

  /** The low n bits of v. */
  function ToBits(n: nat, v: nat): (s: Bits)
    ensures |s| == n
  {
    if n == 0 then [] else ToBits(n - 1, v / 2) + [v % 2 == 1]
  }

  function FromBits(s: Bits): (v: nat) {
    if s == [] then 0 else 2 * FromBits(s[..|s| - 1]) + if s[|s| - 1] then 1 else 0
  }

  lemma {:induction false} BitsRoundTrip(n: nat, v: nat)
    requires v < Pow2(n)
    ensures FromBits(ToBits(n, v)) == v
  {
    if n > 0 {
      BitsRoundTrip(n - 1, v / 2);
      assert ToBits(n, v)[..n - 1] == ToBits(n - 1, v / 2);
    }
  }

  lemma {:induction false} FromBitsBound(s: Bits)
    ensures FromBits(s) < Pow2(|s|)
  {
    if s != [] {
      FromBitsBound(s[..|s| - 1]);
    }
  }

  // ---------------------------------------------------------------- reading

  /** A value read, and the bits after it. */
  datatype Got = Got(v: nat, rest: Bits)

  /** get_bits: nothing is consumed, and 0 returned, when there are not enough bits. */
  function Get(s: Bits, n: nat): (g: Got) {
    if |s| < n then Got(0, s) else Got(FromBits(s[..n]), s[n..])
  }

  lemma GetPut(n: nat, v: nat, rest: Bits)
    requires v < Pow2(n)
    ensures Get(ToBits(n, v) + rest, n) == Got(v, rest)
  {
    BitsRoundTrip(n, v);
    assert (ToBits(n, v) + rest)[..n] == ToBits(n, v);
    assert (ToBits(n, v) + rest)[n..] == rest;
  }

  // ---------------------------------------------------------------- ns(n)

  /** Number of bits of x. */
  function Width(x: nat): (w: nat) {
    if x == 0 then 0 else 1 + Width(x / 2)
  }

  lemma {:induction false} WidthBounds(x: nat)
    requires x >= 1
    ensures Width(x) >= 1 && Pow2(Width(x) - 1) <= x < Pow2(Width(x))
  {
    if x >= 2 {
      WidthBounds(x / 2);
    } else {
      assert Width(0) == 0 && Pow2(1) == 2;
    }
  }

  /** putbit_write_ns: m values take one bit less than the others. */
  function ToNs(n: nat, v: nat): (s: Bits)
    requires n >= 1
  {
    WidthBounds(n);
    var w := Width(n);
    var m := Pow2(w) - n;
    if v < m then ToBits(w - 1, v) else ToBits(w, v + m)
  }

  /** getbit_read_ns. */
  function GetNs(s: Bits, n: nat): (g: Got)
    requires n >= 1
  {
    WidthBounds(n);
    var w := Width(n);
    var m := Pow2(w) - n;
    var first := Get(s, w - 1);
    if first.v < m then first
    else
      var extra := Get(first.rest, 1);
      Got(2 * first.v - m + extra.v, extra.rest)
  }

  /** The two lengths of the code: w - 1 bits below m, w bits from there on. */
  lemma NsForm(n: nat, v: nat)
    requires n >= 1
    ensures var w := Width(n);
            && w >= 1 && Pow2(w) == 2 * Pow2(w - 1) && Pow2(w - 1) <= n < Pow2(w)
            && var m := Pow2(w) - n; ToNs(n, v) == if v < m then ToBits(w - 1, v) else ToBits(w, v + m)
  {
    hide ToBits, Width;
    WidthBounds(n);
  }

  lemma NsRead(s: Bits, n: nat)
    requires n >= 1
    ensures var w := Width(n);
            && w >= 1 && Pow2(w - 1) <= n < Pow2(w)
            && var m := Pow2(w) - n;
               var first := Get(s, w - 1);
               var extra := Get(first.rest, 1);
               GetNs(s, n) == if first.v < m then first else Got(2 * first.v - m + extra.v, extra.rest)
  {
    hide Get, Width, Pow2;
    WidthBounds(n);
  }

  lemma LastBit(w: nat, x: nat, rest: Bits)
    requires w >= 1
    ensures ToBits(w, x) + rest == ToBits(w - 1, x / 2) + (ToBits(1, x % 2) + rest)
  {
    assert ToBits(0, x % 2 / 2) == [];
    assert ToBits(1, x % 2) == [x % 2 == 1];
  }

  /** ns(n) is prefix-free: each v < n is read back, and exactly its own bits are consumed. */
  lemma NsRoundTrip(n: nat, v: nat, rest: Bits)
    requires v < n
    ensures GetNs(ToNs(n, v) + rest, n) == Got(v, rest)
  {
    hide ToNs, GetNs, Get, ToBits, Width, Pow2;
    NsForm(n, v);
    NsRead(ToNs(n, v) + rest, n);
    var w := Width(n);
    var m := Pow2(w) - n;
    if v < m {
      GetPut(w - 1, v, rest);
    } else {
      var x := v + m;
      LastBit(w, x, rest);
      GetPut(w - 1, x / 2, ToBits(1, x % 2) + rest);
      assert Pow2(1) == 2 by { PowTwo(); }
      GetPut(1, x % 2, rest);
    }
  }

  lemma PowTwo()
    ensures Pow2(1) == 2
  {
  }

  // ---------------------------------------------------------------- bytes

  function ByteBits(b: Byte): (s: Bits)
    ensures |s| == 8
  {
    ToBits(8, b)
  }

  function BytesBits(bs: seq<Byte>): (s: Bits)
    ensures |s| == 8 * |bs|
  {
    if bs == [] then [] else ByteBits(bs[0]) + BytesBits(bs[1..])
  }

  lemma {:induction false} BytesBitsAt(bs: seq<Byte>, k: nat)
    requires k < 8 * |bs|
    ensures BytesBits(bs)[k] == ByteBits(bs[k / 8])[k % 8]
  {
    if k >= 8 {
      BytesBitsAt(bs[1..], k - 8);
      assert (k - 8) / 8 == k / 8 - 1 && (k - 8) % 8 == k % 8;
    }
  }

  /** The bit of weight 2^(7-k) of a byte. */
  lemma {:induction false} BitAt(n: nat, v: nat, k: nat)
    requires k < n
    ensures ToBits(n, v)[k] == (v / Pow2(n - 1 - k) % 2 == 1)
  {
    if k < n - 1 {
      BitAt(n - 1, v / 2, k);
      DivDiv(v, Pow2(n - 2 - k));
    }
  }

  lemma DivDiv(v: nat, p: nat)
    requires p >= 1
    ensures v / 2 / p == v / (2 * p)
  {
    var q, r := v / 2 / p, v / 2 % p;
    assert v / 2 == p * q + r;
    assert v == (2 * p) * q + (2 * r + v % 2);
    assert 0 <= 2 * r + v % 2 < 2 * p;
    DivUnique(v, 2 * p, q, 2 * r + v % 2);
  }

  // ---------------------------------------------------------------- the bit writer

  /** Setting or clearing the bit of weight p. */
  function SetBit(b: nat, p: nat, bit: bool): (r: int)
    requires p >= 1
  {
    var isSet := b / p % 2 == 1;
    if bit && !isSet then b + p else if !bit && isSet then b - p else b
  }

  lemma {:induction false} SetBitBits(n: nat, v: nat, k: nat, bit: bool)
    requires k < n
    ensures var r := SetBit(v, Pow2(n - 1 - k), bit);
            r >= 0 && ToBits(n, r) == ToBits(n, v)[k := bit] && (v < Pow2(n) ==> r < Pow2(n))
  {
    hide ToBits, SetBit;
    if k == n - 1 {
      SetLastBit(n, v, bit);
    } else {
      SetBitBits(n - 1, v / 2, k, bit);
      SetBitHalf(v, Pow2(n - 2 - k), bit);
      var h := SetBit(v / 2, Pow2(n - 2 - k), bit);
      SetFrontBit(n, v, h, k, bit);
    }
  }

  lemma SetLastBit(n: nat, v: nat, bit: bool)
    requires n >= 1
    ensures var r := SetBit(v, Pow2(0), bit);
            r >= 0 && ToBits(n, r) == ToBits(n, v)[n - 1 := bit] && (v < Pow2(n) ==> r < Pow2(n))
  {
    hide ToBits;
    ToBitsHalf(n, v, v / 2, v % 2);
    ToBitsHalf(n, SetBit(v, 1, bit), v / 2, if bit then 1 else 0);
    assert (ToBits(n - 1, v / 2) + [v % 2 == 1])[n - 1 := bit] == ToBits(n - 1, v / 2) + [bit];
  }

  lemma SetFrontBit(n: nat, v: nat, h: nat, k: nat, bit: bool)
    requires n >= 1 && k < n - 1 && ToBits(n - 1, h) == ToBits(n - 1, v / 2)[k := bit]
    requires v / 2 < Pow2(n - 1) ==> h < Pow2(n - 1)
    ensures var r := 2 * h + v % 2;
            ToBits(n, r) == ToBits(n, v)[k := bit] && (v < Pow2(n) ==> r < Pow2(n))
  {
    hide ToBits;
    ToBitsHalf(n, v, v / 2, v % 2);
    ToBitsHalf(n, 2 * h + v % 2, h, v % 2);
    assert (ToBits(n - 1, v / 2) + [v % 2 == 1])[k := bit] == ToBits(n - 1, v / 2)[k := bit] + [v % 2 == 1];
  }

  lemma SetBitHalf(v: nat, p: nat, bit: bool)
    requires p >= 1
    ensures SetBit(v, 2 * p, bit) == 2 * SetBit(v / 2, p, bit) + v % 2
  {
    DivDiv(v, p);
  }

  lemma ToBitsHalf(n: nat, r: nat, h: nat, low: nat)
    requires n >= 1 && r == 2 * h + low && low < 2
    ensures ToBits(n, r) == ToBits(n - 1, h) + [low == 1]
  {
  }

  lemma BytesBitsSet(bs: seq<Byte>, i: nat, b: Byte, k: nat, bit: bool)
    requires i < |bs| && k < 8 && ByteBits(b) == ByteBits(bs[i])[k := bit]
    ensures BytesBits(bs[i := b]) == BytesBits(bs)[8 * i + k := bit]
  {
    hide BytesBits, ByteBits;
    var x, y := BytesBits(bs[i := b]), BytesBits(bs)[8 * i + k := bit];
    forall j | 0 <= j < |x| ensures x[j] == y[j] {
      BytesBitsAt(bs[i := b], j);
      BytesBitsAt(bs, j);
      if j / 8 == i && j != 8 * i + k {
        assert j % 8 != k;
      }
    }
  }

  lemma {:induction false} BytesBitsAppend(a: seq<Byte>, b: seq<Byte>)
    ensures BytesBits(a + b) == BytesBits(a) + BytesBits(b)
  {
    hide ByteBits;
    if a == [] {
      assert a + b == b;
    } else {
      assert (a + b)[1..] == a[1..] + b;
      BytesBitsAppend(a[1..], b);
    }
  }

  /** Setting the bit at a position writes it behind the bits before. */
  lemma OneBit(buf: seq<Byte>, pos: nat, bit: bool)
    requires pos < 8 * |buf|
    ensures var i := pos / 8;
            var b := SetBit(buf[i], Pow2(7 - pos % 8), bit);
            0 <= b < 256 && BytesBits(buf[i := b])[..pos + 1] == BytesBits(buf)[..pos] + [bit]
  {
    hide BytesBits, ByteBits, SetBit, ToBits;
    var i, k := pos / 8, pos % 8;
    SetBitBits(8, buf[i], k, bit);
    ByteRange(buf[i]);
    var b: Byte := SetBit(buf[i], Pow2(7 - k), bit);
    ByteBitsIs(b);
    ByteBitsIs(buf[i]);
    BytesBitsSet(buf, i, b, k, bit);
    assert BytesBits(buf)[pos := bit][..pos + 1] == BytesBits(buf)[..pos] + [bit];
  }

  /** struct putbit over its memory buffer. */
  class PutBit {
    var buf: seq<Byte>
    var pos: nat

    ghost predicate Valid()
      reads this
    {
      buf != [] && pos <= 8 * |buf|
    }

    /** The bits written so far. */
    ghost function Written(): (s: Bits)
      requires Valid()
      reads this
      ensures |s| == pos
    {
      BytesBits(buf)[..pos]
    }

    /** putbit_init on a buffer of some capacity. */
    constructor (size: nat)
      requires size > 0
      ensures Valid() && Written() == []
    {
      buf, pos := seq(size, _ => 0), 0;
    }

    /** mbuf_resize: the new half of the buffer holds whatever was in memory. */
    method Grow()
      requires Valid()
      modifies this`buf
      ensures Valid() && |buf| == 2 * |old(buf)| && buf[..|old(buf)|] == old(buf)
      ensures Written() == old(Written())
    {
      hide BytesBits;
      var memory: nat -> Byte := *;
      var more := seq<Byte>(|buf|, i requires 0 <= i => memory(i));
      BytesBitsAppend(buf, more);
      buf := buf + more;
    }

    /** putbit_one. */
    method One(bit: bool)
      requires Valid()
      modifies this
      ensures Valid() && Written() == old(Written()) + [bit]
    {
      hide BytesBits, SetBit;
      var i := pos / 8;
      if i >= |buf| {
        Grow();
      }
      OneBit(buf, pos, bit);
      var b: Byte := SetBit(buf[i], Pow2(7 - pos % 8), bit);
      buf, pos := buf[i := b], pos + 1;
    }

    /** putbit_write: the low count bits of val. */
    method Write(count: nat, val: nat)
      requires Valid()
      modifies this
      ensures Valid() && Written() == old(Written()) + ToBits(count, val)
    {
      hide BytesBits;
      ghost var all := ToBits(count, val);
      assert old(Written()) + all[..0] == Written();
      for i := 0 to count
        invariant Valid() && Written() == old(Written()) + all[..i]
      {
        var p := PowerOf2(count - i - 1);
        BitAt(count, val, i);
        One(val / p % 2 == 1);
        assert all[..i + 1] == all[..i] + [all[i]];
      }
      assert all[..count] == all;
    }

    /** putbit_write_ns. */
    method WriteNs(n: nat, v: nat)
      requires Valid() && n >= 1
      modifies this
      ensures Valid() && Written() == old(Written()) + ToNs(n, v)
    {
      hide BytesBits, ToBits, ToNs, Width, Pow2;
      NsForm(n, v);
      var w := WidthOf(n);
      var full := PowerOf2(w);
      var m := full - n;
      if v < m {
        Write(w - 1, v);
      } else {
        Write(w, v + m);
      }
    }

    /** The bytes of the buffer: the bits written, and up to seven more. */
    method Contents() returns (out: seq<Byte>)
      requires Valid()
      ensures Written() <= BytesBits(out) && |out| == (pos + 7) / 8
    {
      hide BytesBits;
      out := buf[..(pos + 7) / 8];
      assert buf == out + buf[(pos + 7) / 8..];
      BytesBitsAppend(out, buf[(pos + 7) / 8..]);
    }
  }

  /** 1 << k */
  method PowerOf2(k: nat) returns (p: nat)
    ensures p == Pow2(k)
  {
    p := 1;
    for i := 0 to k
      invariant p == Pow2(i)
    {
      p := 2 * p;
    }
  }

  /** The width loop of putbit_write_ns and getbit_read_ns. */
  method WidthOf(n: nat) returns (w: nat)
    ensures w == Width(n)
  {
    w := 0;
    var x := n;
    while x != 0
      invariant w + Width(x) == Width(n)
    {
      x := x / 2;
      w := w + 1;
    }
  }

  // ---------------------------------------------------------------- the bit reader

  /** struct getbit. */
  class GetBit {
    const buf: seq<Byte>
    var pos: nat

    ghost predicate Valid()
      reads this
    {
      pos <= 8 * |buf|
    }

    /** The bits not read yet. */
    ghost function Rest(): (s: Bits)
      requires Valid()
      reads this
      ensures |s| == 8 * |buf| - pos
    {
      BytesBits(buf)[pos..]
    }

    constructor (buf: seq<Byte>)
      ensures this.buf == buf && Valid() && Rest() == BytesBits(buf)
    {
      this.buf, pos := buf, 0;
    }

    function Left(): (n: nat)
      requires Valid()
      reads this
      ensures n == |Rest()|
    {
      8 * |buf| - pos
    }

    /** get_bit. */
    method Bit() returns (b: bool)
      requires Valid()
      modifies this`pos
      ensures Valid()
      ensures if old(Rest()) == [] then !b && Rest() == [] else b == old(Rest())[0] && Rest() == old(Rest())[1..]
    {
      hide BytesBits;
      if pos >= 8 * |buf| {
        return false;
      }
      var p := PowerOf2(7 - pos % 8);
      BytesBitsAt(buf, pos);
      BitAt(8, buf[pos / 8], pos % 8);
      b := buf[pos / 8] / p % 2 == 1;
      pos := pos + 1;
    }

    /** get_bits. */
    method Read(n: nat) returns (v: nat)
      requires Valid()
      modifies this`pos
      ensures Valid() && Got(v, Rest()) == Get(old(Rest()), n)
    {
      hide BytesBits;
      ghost var s := Rest();
      v := 0;
      if Left() < n {
        return;
      }
      assert s[0..] == s;
      for i := 0 to n
        invariant Valid() && v == FromBits(s[..i]) && Rest() == s[i..]
      {
        var b := Bit();
        assert s[..i + 1][..i] == s[..i];
        v := 2 * v + if b then 1 else 0;
      }
    }

    /** getbit_read_ns. */
    method ReadNs(n: nat) returns (v: nat)
      requires Valid() && n >= 1
      modifies this`pos
      ensures Valid() && Got(v, Rest()) == GetNs(old(Rest()), n)
    {
      hide BytesBits;
      var w := WidthOf(n);
      var full := PowerOf2(w);
      WidthBounds(n);
      var m := full - n;
      v := Read(w - 1);
      if v >= m {
        var extra := Read(1);
        v := 2 * v - m + extra;
      }
    }
  }

  lemma ByteRange(b: Byte)
    ensures Pow2(8) == 256
  {
    assert Pow2(4) == 16;
  }

  lemma ByteBitsIs(b: Byte)
    ensures ByteBits(b) == ToBits(8, b)
  {
  }
}
