/**
 LEB128 integers: av1_leb128_encode and av1_leb128_decode, and the size the packetizer
 reserves for them (leb128_calc_size). Section 4.10.5 of the AV1 bitstream specification.
 */
module Leb128 {
  import opened Bytes

  /** Number of seven-bit groups of v, at least one. */
  function Size(v: nat): (n: nat)
    ensures n >= 1
  {
    if v < 0x80 then 1 else 1 + Size(v / 0x80)
  }

  function Encode(v: nat): (s: seq<Byte>)
    ensures |s| == Size(v)
  {
    if v < 0x80 then [v] else [0x80 + v % 0x80] + Encode(v / 0x80)
  }

  /** A decoded number and the bytes it took. */
  datatype Number = Number(value: nat, used: nat)

  /** The format itself: groups of seven bits, low group first, until a byte below 0x80. */
  function Decode(s: seq<Byte>): (r: Option<Number>)
    ensures r.Some? ==> 1 <= r.value.used <= |s|
  {
    if s == [] then None
    else if s[0] < 0x80 then Some(Number(s[0], 1))
    else match Decode(s[1..])
      case None => None
      case Some(n) => Some(Number(s[0] % 0x80 + 0x80 * n.value, 1 + n.used))
  }

  /** What the library decoder accepts: it stops after `groups` bytes even when bit 7 asks for more. */
  function DecodeAtMost(s: seq<Byte>, groups: nat): (r: Option<Number>)
    ensures r.Some? ==> r.value.used <= |s| && r.value.used <= groups
  {
    if groups == 0 then Some(Number(0, 0))
    else if s == [] then None
    else if s[0] < 0x80 then Some(Number(s[0], 1))
    else match DecodeAtMost(s[1..], groups - 1)
      case None => None
      case Some(n) => Some(Number(s[0] % 0x80 + 0x80 * n.value, 1 + n.used))
  }

  const MAX_GROUPS := 8

  function Pow128(i: nat): (p: nat)
    ensures p >= 1
  {
    if i == 0 then 1 else 0x80 * Pow128(i - 1)
  }

  method CalcSize(v: nat) returns (bytes: nat)
    ensures bytes == Size(v)
    ensures bytes == |Encode(v)|
  {
    bytes := 1;
    var value := v;
    while value >= 0x80
      invariant bytes + Size(value) == Size(v) + 1
    {
      bytes := bytes + 1;
      value := value / 0x80;
    }
  }

  method EncodeTo(mb: seq<Byte>, v: nat) returns (out: seq<Byte>)
    ensures out == mb + Encode(v)
  {
    out := mb;
    var value := v;
    while value >= 0x80
      invariant out + Encode(value) == mb + Encode(v)
    {
      out := out + [0x80 + value % 0x80];
      value := value / 0x80;
    }
    out := out + [value];
  }

  /** av1_leb128_decode on the unread bytes s; the library's `groups` is MAX_GROUPS. */
  method DecodeFrom(s: seq<Byte>, groups: nat) returns (r: Result<Number>)
    ensures r == match DecodeAtMost(s, groups) case None => Err(EBADMSG) case Some(n) => Ok(n)
  {
    hide DecodeAtMost, Shift, Pow128;
    var ret: nat, i: nat, weight: nat := 0, 0, 1;
    ShiftNone(s, groups);
    while i < groups
      invariant i <= groups && i <= |s|
      invariant weight == Pow128(i)
      invariant DecodeAtMost(s, groups) == Shift(DecodeAtMost(s[i..], groups - i), i, ret)
    {
      if |s| - i < 1 {
        ShiftEnds(s, i, groups, ret);
        return Err(EBADMSG);
      }
      var b := s[i];
      ShiftStep(s, i, groups, ret);
      ret := ret + b % 0x80 * weight;
      i := i + 1;
      if b < 0x80 {
        return Ok(Number(ret, i));
      }
      weight := 0x80 * weight;
    }
    ShiftEnds(s, i, groups, ret);
    return Ok(Number(ret, i));
  }

  /** The rest of the number, once i groups worth `low` have been read. */
  ghost function Shift(r: Option<Number>, i: nat, low: nat): Option<Number> {
    match r
    case None => None
    case Some(n) => Some(Number(low + Pow128(i) * n.value, i + n.used))
  }

  lemma ShiftNone(s: seq<Byte>, groups: nat)
    ensures Pow128(0) == 1 && Shift(DecodeAtMost(s[0..], groups), 0, 0) == DecodeAtMost(s, groups)
  {
    assert s[0..] == s;
  }

  lemma ShiftEnds(s: seq<Byte>, i: nat, groups: nat, low: nat)
    requires i <= |s| && i <= groups
    ensures i == groups ==> Shift(DecodeAtMost(s[i..], groups - i), i, low) == Some(Number(low, i))
    ensures i == |s| && i < groups ==> Shift(DecodeAtMost(s[i..], groups - i), i, low) == None
  {
  }

  lemma ShiftStep(s: seq<Byte>, i: nat, groups: nat, low: nat)
    requires i < groups && i < |s|
    ensures Pow128(i + 1) == 0x80 * Pow128(i)
    ensures Shift(DecodeAtMost(s[i..], groups - i), i, low) ==
            if s[i] < 0x80 then Some(Number(low + s[i] % 0x80 * Pow128(i), i + 1))
            else Shift(DecodeAtMost(s[i + 1..], groups - i - 1), i + 1, low + s[i] % 0x80 * Pow128(i))
  {
    assert s[i..][1..] == s[i + 1..];
    var tail := DecodeAtMost(s[i + 1..], groups - i - 1);
    if s[i] >= 0x80 && tail.Some? {
      Distribute(s[i] % 0x80, tail.value.value, Pow128(i));
    }
  }

  lemma Distribute(d: nat, v: nat, p: nat)
    ensures p * (d + 0x80 * v) == d * p + (0x80 * p) * v
  {
  }

  /** Reading back what was written, whatever follows it. */
  lemma {:induction false} RoundTrip(v: nat, rest: seq<Byte>)
    ensures Decode(Encode(v) + rest) == Some(Number(v, Size(v)))
  {
    if v < 0x80 {
    } else {
      RoundTrip(v / 0x80, rest);
      assert (Encode(v) + rest)[1..] == Encode(v / 0x80) + rest;
    }
  }

  /** The library decoder reads every number whose groups fit in eight bytes, that is, below 2^56. */
  lemma {:induction false} RoundTripAtMost(v: nat, groups: nat, rest: seq<Byte>)
    requires groups >= 1 && v < Pow128(groups)
    ensures DecodeAtMost(Encode(v) + rest, groups) == Some(Number(v, Size(v)))
  {
    if v < 0x80 {
    } else {
      RoundTripAtMost(v / 0x80, groups - 1, rest);
      assert (Encode(v) + rest)[1..] == Encode(v / 0x80) + rest;
    }
  }

  /** A number that is cut short is not a number. */
  lemma {:induction false} CutShort(v: nat, groups: nat, k: nat)
    requires groups >= 1 && v < Pow128(groups) && k < Size(v)
    ensures DecodeAtMost(Encode(v)[..k], groups) == None
  {
    if k > 0 {
      CutShort(v / 0x80, groups - 1, k - 1);
      assert Encode(v)[..k][1..] == Encode(v / 0x80)[..k - 1];
    }
  }

  /** The numbers that the library decoder gets whole are those of 56 bits. */
  lemma LargestNumber()
    ensures Pow128(MAX_GROUPS) == 0x100_0000_0000_0000
  {
    assert Pow128(2) == 0x4000;
    assert Pow128(4) == 0x1000_0000;
    assert Pow128(6) == 0x400_0000_0000;
  }

  /** The form of the bytes: all but the last have bit 7 set, and a last group of 0 stands alone. */
  lemma {:induction false} EncodeForm(v: nat)
    ensures forall i :: 0 <= i < |Encode(v)| - 1 ==> Encode(v)[i] >= 128
    ensures Encode(v)[|Encode(v)| - 1] < 128
    ensures |Encode(v)| > 1 ==> Encode(v)[|Encode(v)| - 1] > 0
    ensures v < Pow128(Size(v)) && (v == 0 || Pow128(Size(v) - 1) <= v)
  {
    if v >= 0x80 {
      EncodeForm(v / 0x80);
    }
  }

  // ---------------------------------------------------------------- sizes

  lemma {:induction false} SizeMonotone(a: nat, b: nat)
    requires a <= b
    ensures Size(a) <= Size(b)
    decreases b
  {
    if b < 0x80 {
    } else {
      SizeMonotone(a / 0x80, b / 0x80);
    }
  }

  lemma {:induction false} SizeAtMostValue(v: nat)
    requires v >= 1
    ensures Size(v) <= v
  {
    if v < 0x80 {
    } else {
      SizeAtMostValue(v / 0x80);
    }
  }

  /** Giving up the prefix's own bytes lowers the size of the prefix by at most one byte. */
  lemma SizeDropsByAtMostOne(v: nat, w: nat)
    requires v >= 1 && v + 1 <= w + Size(v)
    ensures Size(w) + 1 >= Size(v)
  {
    if v < 0x80 {
    } else {
      SizeAtMostValue(v / 0x80);
      assert w >= v / 0x80;
      SizeMonotone(v / 0x80, w);
    }
  }
}
