/**
 The wire format of BFCP, field by field, as sections 5.1 and 5.2 of RFC 4582 give it: what stands where
 in an encoded message, and what a decoder refuses. A codec that reads back its own bytes could still put
 them in a place of its own; this one does not.
 */
module BfcpWire {
  import opened Bytes
  import opened BfcpAttr
  import opened BfcpMsg

  /** The number that bytes i to j - 1 spell, the most significant byte first. */
  function BigEndian(s: seq<Byte>, i: nat, j: nat): (n: nat)
    requires i <= j <= |s|
  {
    if i == j then 0 else 256 * BigEndian(s, i, j - 1) + s[j - 1]
  }

  /** Version, R bit, primitive, length, conference, transaction and user. */
  lemma HeaderLayout(h: Header)
    requires HeaderOk(h)
    ensures var s := EncodeHeader(h);
            && |s| == 12
            && BigEndian(s, 0, 1) == 32 * h.ver + (if h.r then 16 else 0)
            && BigEndian(s, 1, 2) == h.prim
            && BigEndian(s, 2, 4) == h.len
            && BigEndian(s, 4, 8) == h.confid
            && BigEndian(s, 8, 10) == h.tid
            && BigEndian(s, 10, 12) == h.userid
  {
    hide EncodeHeader, Be16, Be32, BigEndian;
    var s := EncodeHeader(h);
    assert s[0..12] == s;
    HeaderParts(h, s, 0);
    Be16RoundTrip(h.len, s, 2);
    Be32RoundTrip(h.confid, s, 4);
    Be16RoundTrip(h.tid, s, 8);
    Be16RoundTrip(h.userid, s, 10);
    OneByte(s, 0);
    OneByte(s, 1);
    TwoBytes(s, 2);
    FourBytes(s, 4);
    TwoBytes(s, 8);
    TwoBytes(s, 10);
  }

  lemma OneByte(s: seq<Byte>, i: nat)
    requires i < |s|
    ensures BigEndian(s, i, i + 1) == s[i]
  {
    assert BigEndian(s, i, i) == 0;
  }

  lemma TwoBytes(s: seq<Byte>, i: nat)
    requires i + 2 <= |s|
    ensures BigEndian(s, i, i + 2) == U16At(s, i)
  {
    OneByte(s, i);
  }

  lemma FourBytes(s: seq<Byte>, i: nat)
    requires i + 4 <= |s|
    ensures BigEndian(s, i, i + 4) == U32At(s, i)
  {
    TwoBytes(s, i);
    assert BigEndian(s, i, i + 3) == 256 * BigEndian(s, i, i + 2) + s[i + 2];
  }

  /** What is refused: a short buffer, a version other than 1 and 2, and a fragment, in this order. */
  lemma HeaderRefused(ver: nat, r: bool, fragment: bool, low: nat, rest: seq<Byte>)
    requires ver < 8 && low < 8
    ensures var b: int := 32 * ver + (if r then 16 else 0) + (if fragment then 8 else 0) + low;
            && 0 <= b < 256
            && var d := DecodeHeader([b] + rest, 0);
               if |rest| < 11 then d == Err(ENODATA)
               else if ver != 1 && ver != 2 then d == Err(EBADMSG)
               else if fragment then d == Err(ENOSYS)
               else if |rest| < 11 + 4 * BigEndian(rest, 1, 3) then d == Err(ENODATA)
               else d.Ok? && d.value.ver == ver && d.value.r == r && d.value.len == BigEndian(rest, 1, 3)
  {
    hide BigEndian, U16At, DecodeHeader, FirstBits;
    var b: int := 32 * ver + (if r then 16 else 0) + (if fragment then 8 else 0) + low;
    FirstByte(ver, r, fragment, low, b);
    if |rest| >= 11 {
      TwoBytes(rest, 1);
      LengthField(b, rest);
    }
    HeaderCases([b] + rest, ver, r, fragment);
  }

  /** The same by the bits of the first byte. */
  lemma HeaderCases(buf: seq<Byte>, ver: nat, r: bool, fragment: bool)
    requires |buf| >= 1 && FirstBits(buf[0], ver, r, fragment)
    ensures var d := DecodeHeader(buf, 0);
            if |buf| < 12 then d == Err(ENODATA)
            else if ver != 1 && ver != 2 then d == Err(EBADMSG)
            else if fragment then d == Err(ENOSYS)
            else if |buf| < 12 + 4 * U16At(buf, 2) then d == Err(ENODATA)
            else d.Ok? && d.value.ver == ver && d.value.r == r && d.value.len == U16At(buf, 2)
  {
    hide U16At, U32At;
  }

  ghost predicate FirstBits(b: Byte, ver: nat, r: bool, fragment: bool) {
    b / 32 == ver && (b / 16 % 2 == 1 <==> r) && (b / 8 % 2 == 1 <==> fragment)
  }

  lemma FirstByte(ver: nat, r: bool, fragment: bool, low: nat, b: int)
    requires ver < 8 && low < 8
    requires b == 32 * ver + (if r then 16 else 0) + (if fragment then 8 else 0) + low
    ensures 0 <= b < 256 && FirstBits(b, ver, r, fragment)
  {
    var x, y := if r then 1 else 0, if fragment then 1 else 0;
    assert b / 8 == 4 * ver + 2 * x + y;
    assert b / 16 == 2 * ver + x;
  }

  lemma LengthField(b: Byte, rest: seq<Byte>)
    requires |rest| >= 11
    ensures U16At([b] + rest, 2) == U16At(rest, 1)
  {
  }

  // ---------------------------------------------------------------- attributes

  /** Type and M bit, length without padding, value, and zeros up to a whole word. */
  lemma AttrLayout(a: Attr)
    requires AttrOk(a) && a.subs == []
    ensures var s, n := EncodeAttr(a), |ValueBytes(a.v)|;
            && |s| % 4 == 0 && n + 2 <= |s| < n + 6
            && BigEndian(s, 0, 1) == 2 * a.typ + (if a.mand then 1 else 0)
            && BigEndian(s, 1, 2) == 2 + n
            && s[2..2 + n] == ValueBytes(a.v)
            && (forall i :: 2 + n <= i < |s| ==> s[i] == 0)
  {
    hide ValueBytes, BigEndian;
    TypeFits(a.typ, a.v);
    WholeWord(a);
    NoSubs(a);
    OneByte(EncodeAttr(a), 0);
    OneByte(EncodeAttr(a), 1);
  }

  lemma NoSubs(a: Attr)
    requires a.subs == []
    ensures EncodeAttrs(a.subs) == []
  {
  }

  /** A grouped attribute: the length is that of everything, and the sub-attributes follow the value. */
  lemma GroupLayout(a: Attr)
    requires AttrOk(a) && a.subs != []
    ensures var s := EncodeAttr(a);
            && |s| == 4 + |EncodeAttrs(a.subs)| && 14 <= a.typ <= 18
            && BigEndian(s, 0, 1) == 2 * a.typ + (if a.mand then 1 else 0)
            && BigEndian(s, 1, 2) == |s|
            && s[2..4] == ValueBytes(a.v) && s[4..] == EncodeAttrs(a.subs)
  {
    hide ValueBytes, BigEndian, EncodeAttrs;
    TypeFits(a.typ, a.v);
    WholeWord(a);
    OneByte(EncodeAttr(a), 0);
    OneByte(EncodeAttr(a), 1);
  }

  /** The bytes of each kind of value. */
  lemma ValueLayout(typ: nat, v: Value)
    requires ValueOk(typ, v)
    ensures var s := ValueBytes(v);
            && (v.U16? ==> |s| == 2 && BigEndian(s, 0, 2) == v.n)
            && (v.Priority? ==> |s| == 2 && BigEndian(s, 0, 2) == 0x2000 * v.prio)
            && (v.ReqStatus? ==> |s| == 2 && BigEndian(s, 0, 1) == v.status && BigEndian(s, 1, 2) == v.qpos)
            && (v.ErrCode? ==> |s| == 1 + |v.details| && BigEndian(s, 0, 1) == v.code && s[1..] == v.details)
            && (v.Str? ==> s == v.str)
            && (v.SupAttrs? ==> |s| == |v.attrv| && forall i :: 0 <= i < |s| ==> s[i] == 2 * v.attrv[i])
            && (v.SupPrims? ==> |s| == |v.primv| && forall i :: 0 <= i < |s| ==> s[i] == v.primv[i])
  {
    hide BigEndian;
    var s := ValueBytes(v);
    if v.U16? || v.Priority? || v.ReqStatus? {
      TwoBytes(s, 0);
      OneByte(s, 0);
      OneByte(s, 1);
    } else if v.ErrCode? {
      OneByte(s, 0);
    }
  }

  /** The attribute types of section 5.2: which value each has. */
  lemma TypeTable(typ: nat, v: Value)
    requires ValueOk(typ, v)
    ensures v.U16? <==> typ in {1, 2, 3, 14, 15, 16, 17, 18}
    ensures v.Priority? <==> typ == 4
    ensures v.ReqStatus? <==> typ == 5
    ensures v.ErrCode? <==> typ == 6
    ensures v.Str? <==> typ in {7, 8, 9, 12, 13}
    ensures v.SupAttrs? <==> typ == 10
    ensures v.SupPrims? <==> typ == 11
  {
  }

  /** Too short a value for its type. */
  predicate TooShort(typ: nat, n: nat) {
    ((1 <= typ <= 5 || 14 <= typ <= 18) && n < 2) || (typ == 6 && n < 1)
  }

  /**
   An attribute without sub-attributes is refused if and only if its length does not cover its own
   header, goes beyond the buffer, or is too short for its type.
   */
  lemma AttrRefused(typ: nat, mand: bool, total: Byte, rest: seq<Byte>)
    requires typ < 128
    ensures var b: int := 2 * typ + (if mand then 1 else 0);
            && 0 <= b < 256
            && var buf := [b, total] + rest;
               var bad := total < 2 || total > |buf| || TooShort(typ, total - 2);
               && (bad ==> DecodeAttr(buf, 0, |buf|) == Err(EBADMSG))
               && (!bad && !(14 <= typ <= 18) ==> DecodeAttr(buf, 0, |buf|).Ok?)
  {
    hide DecodeAttrs;
    var b: int := 2 * typ + (if mand then 1 else 0);
    assert b / 2 == typ;
  }
}
