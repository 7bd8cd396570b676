/**
 The BFCP codec as it runs on a memory buffer: positions moved back to fill in headers and
 lengths, the end of the buffer narrowed for nested attributes. Proved against the functions of
 the BfcpAttr and BfcpMsg modules.
 */
module BfcpCode {
  import opened Bytes
  import opened BfcpAttr
  import opened BfcpMsg

  /** Writing s at a position of a buffer, over what is there or beyond its end. */
  function Put(buf: seq<Byte>, pos: nat, s: seq<Byte>): (r: seq<Byte>)
    ensures |r| >= pos + |s| && |r| >= |buf|
  {
    if pos > |buf| then buf + Zeros(pos - |buf|) + s
    else if pos + |s| >= |buf| then buf[..pos] + s
    else buf[..pos] + s + buf[pos + |s|..]
  }

  /** struct mbuf. */
  class Mbuf {
    var buf: seq<Byte>
    var pos: nat
    var end: nat

    constructor (buf: seq<Byte>)
      ensures this.buf == buf && pos == 0 && end == |buf|
    {
      this.buf, pos, end := buf, 0, |buf|;
    }

    /** mbuf_write_mem. */
    method Write(s: seq<Byte>)
      modifies this
      ensures buf == Put(old(buf), old(pos), s) && pos == old(pos) + |s|
      ensures end == if old(end) >= pos then old(end) else pos
    {
      buf := Put(buf, pos, s);
      pos := pos + |s|;
      if end < pos {
        end := pos;
      }
    }

    /** Ready to append. */
    ghost predicate AtEnd()
      reads this
    {
      pos == |buf| && end == |buf|
    }
  }

  predicate Known(typ: nat) { 1 <= typ <= 18 }

  lemma KnownWhenOk(typ: nat, v: Value)
    requires ValueOk(typ, v)
    ensures Known(typ)
  {
  }

  // ---------------------------------------------------------------- encoding

  /** Leaving room, writing the value, then going back for the header. */
  lemma PutHeader(buf: seq<Byte>, hdr: seq<Byte>, val: seq<Byte>)
    requires |hdr| == HDR_SIZE
    ensures Put(Put(buf, |buf| + HDR_SIZE, val), |buf|, hdr) == buf + hdr + val
  {
  }

  /** attr_encode: the value after a gap, the header into the gap, then the padding. */
  method AttrEncode(mb: Mbuf, mand: bool, typ: nat, v: Value) returns (err: Option<Error>)
    modifies mb
    ensures !Known(typ) ==> err == Some(EINVAL)
    ensures old(mb.AtEnd()) && ValueOk(typ, v) && HDR_SIZE + |ValueBytes(v)| <= 255 ==>
              && err.None? && mb.AtEnd()
              && mb.buf == old(mb.buf) + EncodeAttr(Attr(typ, mand, v, []))
  {
    hide ValueBytes, ValueOk, EncodeAttr, Put;
    ghost var fits := mb.AtEnd() && ValueOk(typ, v) && HDR_SIZE + |ValueBytes(v)| <= 255;
    ghost var base := mb.buf;
    var start := mb.pos;
    mb.pos := mb.pos + HDR_SIZE;
    err := None;
    var val := ValueBytes(v);
    if Known(typ) {
      mb.Write(val);
    } else {
      err := Some(EINVAL);
    }
    var len: Byte := (mb.pos - start) % 256;
    mb.pos := start;
    mb.Write([typ % 128 * 2 + if mand then 1 else 0, len]);
    mb.pos := start + len;
    if fits {
      KnownWhenOk(typ, v);
      PutHeader(base, [typ % 128 * 2 + (if mand then 1 else 0), len], val);
      PlainBytes(typ, mand, v);
    }
    Pad(mb, start, len);
  }

  /** The padding loop of attr_encode. */
  method Pad(mb: Mbuf, start: nat, len: nat)
    requires mb.pos == start + len
    modifies mb
    ensures old(mb.AtEnd()) ==> mb.AtEnd() && mb.buf == old(mb.buf) + Zeros(Padding(len))
  {
    hide Put;
    ghost var atEnd, base, k := mb.AtEnd(), mb.buf, 0;
    assert base + Zeros(0) == base;
    while (mb.pos - start) % 4 != 0
      invariant mb.pos == start + len + k && k <= Padding(len)
      invariant atEnd ==> mb.AtEnd() && mb.buf == base + Zeros(k)
      decreases Padding(len) - k
    {
      PutEnd(mb.buf, [0]);
      assert Zeros(k) + [0] == Zeros(k + 1);
      mb.Write([0]);
      k := k + 1;
    }
  }

  lemma PutEnd(buf: seq<Byte>, s: seq<Byte>)
    ensures Put(buf, |buf|, s) == buf + s
  {
  }

  lemma PlainBytes(typ: nat, mand: bool, v: Value)
    ensures var n := HDR_SIZE + |ValueBytes(v)|;
            EncodeAttr(Attr(typ, mand, v, [])) ==
              [typ % 128 * 2 + (if mand then 1 else 0), n % 256] + ValueBytes(v) + Zeros(Padding(n))
  {
    assert EncodeAttrs([]) == [];
  }

  /** bfcp_attrs_vencode: each attribute with its sub-attributes. */
  method AttrsEncode(mb: Mbuf, l: seq<Attr>) returns (err: Option<Error>)
    modifies mb
    ensures old(mb.AtEnd()) && AttrsOk(l) ==>
              err.None? && mb.AtEnd() && mb.buf == old(mb.buf) + EncodeAttrs(l)
    decreases l
  {
    hide EncodeAttr, EncodeAttrs, AttrOk;
    ghost var fits := mb.AtEnd() && AttrsOk(l);
    ghost var base := mb.buf;
    AttrsNone();
    for i := 0 to |l|
      invariant fits ==> mb.AtEnd() && mb.buf == base + EncodeAttrs(l[..i])
    {
      err := AttrTreeEncode(mb, l[i]);
      if err.Some? {
        return;
      }
      if fits {
        AttrsSnoc(base, l, i);
      }
    }
    assert l[..|l|] == l;
    err := None;
  }

  /** One turn of its loop: the attribute, then its sub-attributes, then its total length. */
  method AttrTreeEncode(mb: Mbuf, a: Attr) returns (err: Option<Error>)
    modifies mb
    ensures old(mb.AtEnd()) && AttrOk(a) ==>
              err.None? && mb.AtEnd() && mb.buf == old(mb.buf) + EncodeAttr(a)
    decreases a
  {
    hide EncodeAttr, EncodeAttrs, AttrOk;
    ghost var fits := mb.AtEnd() && AttrOk(a);
    ghost var before := mb.buf;
    var start := mb.pos;
    if fits {
      OkParts(a);
    }
    err := AttrEncode(mb, a.mand, a.typ, a.v);
    if err.Some? {
      return;
    }
    if |a.subs| > 0 {
      err := AttrsEncode(mb, a.subs);
      if err.Some? {
        return;
      }
      var len := mb.pos - start;
      if fits {
        GroupedBytes(before, a);
      }
      mb.pos := start + 1;
      mb.Write([len % 256]);
      mb.pos := start + len;
    } else if fits {
      assert a == Attr(a.typ, a.mand, a.v, []);
    }
  }

  lemma AttrsNone()
    ensures EncodeAttrs([]) == []
  {
  }

  lemma OkParts(a: Attr)
    requires AttrOk(a)
    ensures ValueOk(a.typ, a.v) && HDR_SIZE + |ValueBytes(a.v)| <= 255 && AttrsOk(a.subs) && |EncodeAttr(a)| >= 2
  {
    hide ValueBytes, EncodeAttrs;
  }

  /** Overwriting the length byte turns a plain attribute into a grouped one. */
  lemma GroupedBytes(base: seq<Byte>, a: Attr)
    requires a.subs != []
    ensures var plain := base + EncodeAttr(Attr(a.typ, a.mand, a.v, [])) + EncodeAttrs(a.subs);
            && |plain| == |base| + |EncodeAttr(a)|
            && Put(plain, |base| + 1, [|EncodeAttr(a)| % 256]) == base + EncodeAttr(a)
  {
    hide ValueBytes, EncodeAttrs;
    var p := Attr(a.typ, a.mand, a.v, []);
    AttrsNone();
    var h0: Byte := a.typ % 128 * 2 + if a.mand then 1 else 0;
    var own, subs := Own(a), EncodeAttrs(a.subs);
    assert Own(p) == own;
    assert EncodeAttr(p) == [h0, Length(p) % 256] + own;
    assert EncodeAttr(a) == [h0, Length(a) % 256] + own + subs;
    assert Length(a) == |EncodeAttr(a)|;
    PutSecond(base, h0, Length(p) % 256, Length(a) % 256, own, subs);
  }

  lemma PutSecond(base: seq<Byte>, h0: Byte, h1: Byte, h1': Byte, own: seq<Byte>, subs: seq<Byte>)
    ensures Put(base + ([h0, h1] + own) + subs, |base| + 1, [h1']) == base + ([h0, h1'] + own + subs)
  {
    var s := base + ([h0, h1] + own) + subs;
    assert s[|base| + 2..] == own + subs;
  }

  lemma {:induction false} AttrsSnoc(base: seq<Byte>, l: seq<Attr>, i: nat)
    requires i < |l|
    ensures base + EncodeAttrs(l[..i]) + EncodeAttr(l[i]) == base + EncodeAttrs(l[..i + 1])
  {
    hide EncodeAttr, EncodeAttrs;
    EncodeAppend(l[..i], l[i]);
    assert l[..i + 1] == l[..i] + [l[i]];
  }

  lemma {:induction false} EncodeAppend(l: seq<Attr>, a: Attr)
    ensures EncodeAttrs(l + [a]) == EncodeAttrs(l) + EncodeAttr(a)
  {
    hide EncodeAttr;
    if l == [] {
      assert l + [a] == [a] && [a][1..] == [];
    } else {
      assert (l + [a])[1..] == l[1..] + [a];
      EncodeAppend(l[1..], a);
    }
  }

  /** bfcp_msg_vencode: the attributes after a gap, then the header into the gap. */
  method MsgEncode(mb: Mbuf, h: Header, attrs: seq<Attr>) returns (err: Option<Error>)
    modifies mb
    ensures old(mb.AtEnd()) && AttrsOk(attrs) ==>
              err.None? && mb.AtEnd() && mb.buf == old(mb.buf) + EncodeMsg(h, attrs)
  {
    hide EncodeAttrs, EncodeHeader;
    ghost var fits := mb.AtEnd() && AttrsOk(attrs);
    ghost var base := mb.buf;
    var start := mb.pos;
    // the gap: bytes that the header will overwrite
    mb.Write(Zeros(MSG_HDR_SIZE));
    err := AttrsEncode(mb, attrs);
    if err.Some? {
      return;
    }
    var len := if mb.pos >= start + MSG_HDR_SIZE then mb.pos - start - MSG_HDR_SIZE else 0;
    mb.pos := start;
    mb.Write(EncodeHeader(h.(len := len / 4)));
    mb.pos := mb.pos + len;
    if fits {
      var body := EncodeAttrs(attrs);
      assert Put(base, |base|, Zeros(MSG_HDR_SIZE)) == base + Zeros(MSG_HDR_SIZE);
      PutGap(base, Zeros(MSG_HDR_SIZE), body, EncodeHeader(h.(len := len / 4)));
    }
  }

  lemma PutGap(base: seq<Byte>, gap: seq<Byte>, body: seq<Byte>, hdr: seq<Byte>)
    requires |gap| == |hdr|
    ensures Put(base + gap + body, |base|, hdr) == base + (hdr + body)
  {
    assert (base + gap + body)[|base| + |gap|..] == body;
  }

  // ---------------------------------------------------------------- decoding

  /** The unknown attribute types that a message keeps: the first sixteen. */
  function Cap(s: seq<nat>): (r: seq<nat>)
    ensures |r| <= MAX_UNKNOWN
  {
    if |s| <= MAX_UNKNOWN then s else s[..MAX_UNKNOWN]
  }

  lemma CapTwice(a: seq<nat>, b: seq<nat>)
    ensures Cap(Cap(a) + b) == Cap(a + b)
  {
  }

  lemma CapMore(a: seq<nat>, b: seq<nat>, c: seq<nat>)
    ensures Cap(Cap(a + b) + c) == Cap(a + (b + c))
  {
    CapTwice(a + b, c);
    assert a + b + c == a + (b + c);
  }

  lemma CapEmpty(a: seq<nat>)
    ensures |a| <= MAX_UNKNOWN ==> Cap(a + []) == a
  {
    assert a + [] == a;
  }

  /** attr_decode, moving the position of the buffer. */
  method AttrDecode(mb: Mbuf, uma: seq<nat>) returns (r: Result<Attr>, uma': seq<nat>)
    requires mb.pos + HDR_SIZE <= mb.end <= |mb.buf| && |uma| <= MAX_UNKNOWN
    modifies mb`pos, mb`end
    ensures mb.end == old(mb.end)
    ensures match DecodeAttr(mb.buf, old(mb.pos), old(mb.end))
            case Err(e) => r == Err(e)
            case Ok(one) => r == Ok(one.attr) && mb.pos == one.pos && uma' == Cap(uma + one.unknown)
    decreases mb.end - mb.pos, 0
  {
    hide ReadValue, DecodeAttrs, DecodeAttr, Aligned, Cap;
    uma' := uma;
    var start, end := mb.pos, mb.end;
    var typ, mand, total := mb.buf[start] / 2, mb.buf[start] % 2 == 1, mb.buf[start + 1];
    DecodeCases(mb.buf, start, end);
    if total < HDR_SIZE || end - start < total {
      return Err(EBADMSG), uma';
    }
    var read := ReadValue(typ, mb.buf[start + HDR_SIZE..start + total]);
    if read.None? {
      return Err(EBADMSG), uma';
    }
    var v, at := read.value.v, start + HDR_SIZE + read.value.used;
    mb.pos := at;
    var subs: seq<Attr> := [];
    ghost var inner: seq<nat> := [];
    CapEmpty(uma);
    if IsGrouped(typ) {
      var rs;
      rs, uma' := AttrsDecode(mb, start + total - at, uma');
      if rs.Err? {
        return Err(rs.error), uma';
      }
      subs := rs.value;
      inner := DecodeAttrs(mb.buf, at, start + total).value.unknown;
    }
    if v.Unknown? && mand {
      GroupedKnown(typ, mb.buf[start + HDR_SIZE..start + total]);
      if |uma'| < MAX_UNKNOWN {
        uma' := uma' + [typ * 2];
      }
    }
    OwnUnknown(uma, if v.Unknown? && mand then [typ * 2] else [], inner, uma');
    SkipPadding(mb, start);
    r := Ok(Attr(typ, mand, v, subs));
  }

  /** attr_decode, case by case. */
  lemma DecodeCases(buf: seq<Byte>, pos: nat, end: nat)
    requires pos + HDR_SIZE <= end <= |buf|
    ensures var typ, mand, total := buf[pos] / 2, buf[pos] % 2 == 1, buf[pos + 1];
            if total < HDR_SIZE || end - pos < total then DecodeAttr(buf, pos, end) == Err(EBADMSG)
            else
              var read := ReadValue(typ, buf[pos + HDR_SIZE..pos + total]);
              if read.None? then DecodeAttr(buf, pos, end) == Err(EBADMSG)
              else
                var at := pos + HDR_SIZE + read.value.used;
                var own := if read.value.v.Unknown? && mand then [typ * 2] else [];
                && at <= pos + total
                && if IsGrouped(typ) then
                     var m := DecodeAttrs(buf, at, pos + total);
                     if m.Err? then DecodeAttr(buf, pos, end) == Err(m.error)
                     else
                       DecodeAttr(buf, pos, end) ==
                         Ok(One(Attr(typ, mand, read.value.v, m.value.attrs), Aligned(pos, m.value.pos, end), own + m.value.unknown))
                   else
                     DecodeAttr(buf, pos, end) ==
                       Ok(One(Attr(typ, mand, read.value.v, []), Aligned(pos, at, end), own + []))
  {
    hide ReadValue, DecodeAttrs, Aligned;
  }

  lemma OwnUnknown(uma: seq<nat>, own: seq<nat>, inner: seq<nat>, uma': seq<nat>)
    requires |uma| <= MAX_UNKNOWN && (own == [] || (inner == [] && |own| == 1))
    requires uma' == if own == [] then Cap(uma + inner) else if |uma| < MAX_UNKNOWN then uma + own else uma
    ensures uma' == Cap(uma + (own + inner))
  {
    assert [] + inner == inner && own + [] == own;
  }

  lemma GroupedKnown(typ: nat, s: seq<Byte>)
    requires ReadValue(typ, s).Some? && ReadValue(typ, s).value.v.Unknown?
    ensures !IsGrouped(typ)
  {
  }

  /** The padding loop at the end of attr_decode. */
  method SkipPadding(mb: Mbuf, start: nat)
    requires start <= mb.pos <= mb.end
    modifies mb`pos
    ensures mb.pos == Aligned(start, old(mb.pos), mb.end)
  {
    ghost var p0 := mb.pos;
    while (mb.pos - start) % 4 != 0 && mb.pos < mb.end
      invariant p0 <= mb.pos <= mb.end && mb.pos <= p0 + Padding(p0 - start)
      decreases mb.end - mb.pos
    {
      mb.pos := mb.pos + 1;
    }
  }

  /** bfcp_attrs_decode: the end of the buffer is moved in for the loop and put back after it. */
  method AttrsDecode(mb: Mbuf, len: nat, uma: seq<nat>) returns (r: Result<seq<Attr>>, uma': seq<nat>)
    requires mb.pos <= mb.end <= |mb.buf| && |uma| <= MAX_UNKNOWN
    modifies mb`pos, mb`end
    ensures mb.end == old(mb.end)
    ensures old(mb.end - mb.pos) < len ==> r == Err(EINVAL) && mb.pos == old(mb.pos)
    ensures old(mb.end - mb.pos) >= len ==>
              match DecodeAttrs(mb.buf, old(mb.pos), old(mb.pos) + len)
              case Err(e) => r == Err(e)
              case Ok(many) => r == Ok(many.attrs) && mb.pos == many.pos && uma' == Cap(uma + many.unknown)
    decreases mb.end - mb.pos, 1
  {
    uma' := uma;
    if mb.end - mb.pos < len {
      return Err(EINVAL), uma';
    }
    hide DecodeAttr, DecodeAttrs, Cap, After;
    var end, pos0 := mb.end, mb.pos;
    mb.end := mb.pos + len;
    var attrs: seq<Attr> := [];
    ghost var unknown: seq<nat> := [];
    ghost var whole := DecodeAttrs(mb.buf, pos0, mb.end);
    AfterNone(whole);
    CapEmpty(uma);
    while mb.end - mb.pos >= HDR_SIZE
      invariant pos0 <= mb.pos <= mb.end == pos0 + len
      invariant uma' == Cap(uma + unknown)
      invariant whole == After(attrs, unknown, DecodeAttrs(mb.buf, mb.pos, mb.end))
      decreases mb.end - mb.pos
    {
      AfterStep(mb.buf, mb.pos, mb.end, attrs, unknown);
      ghost var one := DecodeAttr(mb.buf, mb.pos, mb.end);
      var a;
      a, uma' := AttrDecode(mb, uma');
      if a.Err? {
        mb.end := end;
        return Err(a.error), uma';
      }
      CapMore(uma, unknown, one.value.unknown);
      attrs, unknown := attrs + [a.value], unknown + one.value.unknown;
    }
    AfterEnd(mb.buf, mb.pos, mb.end, attrs, unknown);
    mb.end := end;
    r := Ok(attrs);
  }

  /** The attributes decoded so far, followed by what is left to decode. */
  ghost function After(attrs: seq<Attr>, unknown: seq<nat>, r: Result<Many>): Result<Many> {
    match r
    case Err(e) => Err(e)
    case Ok(m) => Ok(Many(attrs + m.attrs, m.pos, unknown + m.unknown))
  }

  lemma AfterNone(r: Result<Many>)
    ensures After([], [], r) == r
  {
    if r.Ok? {
      assert [] + r.value.attrs == r.value.attrs && [] + r.value.unknown == r.value.unknown;
    }
  }

  lemma AfterEnd(buf: seq<Byte>, pos: nat, end: nat, attrs: seq<Attr>, unknown: seq<nat>)
    requires pos <= end <= |buf| && end - pos < HDR_SIZE
    ensures After(attrs, unknown, DecodeAttrs(buf, pos, end)) == Ok(Many(attrs, pos, unknown))
  {
    assert attrs + [] == attrs && unknown + [] == unknown;
  }

  lemma AfterStep(buf: seq<Byte>, pos: nat, end: nat, attrs: seq<Attr>, unknown: seq<nat>)
    requires pos + HDR_SIZE <= end <= |buf|
    ensures match DecodeAttr(buf, pos, end)
            case Err(e) => After(attrs, unknown, DecodeAttrs(buf, pos, end)) == Err(e)
            case Ok(one) =>
              After(attrs, unknown, DecodeAttrs(buf, pos, end)) ==
                After(attrs + [one.attr], unknown + one.unknown, DecodeAttrs(buf, one.pos, end))
  {
    hide DecodeAttr;
    if DecodeAttr(buf, pos, end).Ok? {
      var one := DecodeAttr(buf, pos, end).value;
      var rest := DecodeAttrs(buf, one.pos, end);
      if rest.Ok? {
        assert attrs + ([one.attr] + rest.value.attrs) == attrs + [one.attr] + rest.value.attrs;
        assert unknown + (one.unknown + rest.value.unknown) == unknown + one.unknown + rest.value.unknown;
      }
    }
  }

  /** bfcp_msg_decode: on a header error the position is put back. */
  method MsgDecode(mb: Mbuf) returns (r: Result<Msg>)
    requires mb.pos <= mb.end == |mb.buf|
    modifies mb`pos, mb`end
    ensures mb.end == old(mb.end)
    ensures match DecodeMsg(mb.buf, old(mb.pos))
            case Err(e) => r == Err(e)
            case Ok(d) => r == Ok(d.msg) && mb.pos == d.pos
    ensures DecodeHeader(mb.buf, old(mb.pos)).Err? ==> mb.pos == old(mb.pos)
  {
    hide DecodeHeader, DecodeAttrs;
    var start := mb.pos;
    var h := DecodeHeader(mb.buf, start);
    if h.Err? {
      return Err(h.error);
    }
    mb.pos := start + MSG_HDR_SIZE;
    var attrs, uma := AttrsDecode(mb, 4 * h.value.len, []);
    if attrs.Err? {
      return Err(attrs.error);
    }
    ghost var many := DecodeAttrs(mb.buf, start + MSG_HDR_SIZE, start + MSG_HDR_SIZE + 4 * h.value.len).value;
    assert [] + many.unknown == many.unknown;
    r := Ok(Msg(h.value, attrs.value, uma));
  }
}
