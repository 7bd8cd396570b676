/**
 BFCP attributes: the type-length-value codec of bfcp/attr.c, with nested attributes, padding to
 32-bit words and lengths filled in afterwards. Section 5.2 of RFC 4582.
 */
module BfcpAttr {
  import opened Bytes

  const HDR_SIZE := 2

  /** union bfcp_union, by what the attribute type makes of it. */
  datatype Value =
    | U16(n: nat)
    | Priority(prio: nat)
    | ReqStatus(status: nat, qpos: nat)
    | ErrCode(code: nat, details: seq<Byte>)
    | Str(str: seq<Byte>)
    | SupAttrs(attrv: seq<nat>)
    | SupPrims(primv: seq<nat>)
    | Unknown

  /** struct bfcp_attr. */
  datatype Attr = Attr(typ: nat, mand: bool, v: Value, subs: seq<Attr>)

  predicate IsU16(typ: nat) { typ == 1 || typ == 2 || typ == 3 || IsGrouped(typ) }
  predicate IsGrouped(typ: nat) { 14 <= typ <= 18 }
  predicate IsStr(typ: nat) { typ == 7 || typ == 8 || typ == 9 || typ == 12 || typ == 13 }

  // ---------------------------------------------------------------- values

  /** The shape of value that the encoder expects for a type, in the range that the field holds. */
  predicate ValueOk(typ: nat, v: Value) {
    match v
    case U16(n) => IsU16(typ) && n < 0x10000
    case Priority(p) => typ == 4 && p < 8
    case ReqStatus(s, q) => typ == 5 && s < 256 && q < 256
    case ErrCode(c, _) => typ == 6 && c < 256
    case Str(s) => IsStr(typ) && 0 !in s    // a C string
    case SupAttrs(a) => typ == 10 && forall i :: 0 <= i < |a| ==> a[i] < 128
    case SupPrims(p) => typ == 11 && forall i :: 0 <= i < |p| ==> p[i] < 256
    case Unknown => false
  }

  /** The bytes of a value. */
  function ValueBytes(v: Value): (s: seq<Byte>) {
    match v
    case U16(n) => [n / 256 % 256, n % 256]
    case Priority(p) => [p * 32 % 256, 0]
    case ReqStatus(s, q) => [s % 256, q % 256]
    case ErrCode(c, d) => [c % 256] + d
    case Str(s) => s
    case SupAttrs(a) => seq(|a|, i requires 0 <= i < |a| => a[i] * 2 % 256)
    case SupPrims(p) => seq(|p|, i requires 0 <= i < |p| => p[i] % 256)
    case Unknown => []
  }

  datatype Read = Read(v: Value, used: nat)

  /** What the decoder takes from the bytes an attribute claims; fixed-size values leave the rest. */
  function ReadValue(typ: nat, s: seq<Byte>): (r: Option<Read>)
    ensures r.Some? ==> r.value.used <= |s| && (IsGrouped(typ) ==> r.value.used == 2)
  {
    if IsU16(typ) then
      if |s| < 2 then None else Some(Read(U16(s[0] * 256 + s[1] as int), 2))
    else if typ == 4 then
      if |s| < 2 then None else Some(Read(Priority(s[0] / 32), 2))
    else if typ == 5 then
      if |s| < 2 then None else Some(Read(ReqStatus(s[0], s[1]), 2))
    else if typ == 6 then
      if |s| < 1 then None else Some(Read(ErrCode(s[0], s[1..]), |s|))
    else if IsStr(typ) then Some(Read(Str(s), |s|))
    else if typ == 10 then Some(Read(SupAttrs(seq(|s|, i requires 0 <= i < |s| => s[i] / 2)), |s|))
    else if typ == 11 then Some(Read(SupPrims(seq(|s|, i requires 0 <= i < |s| => s[i])), |s|))
    else Some(Read(Unknown, |s|))
  }

  lemma ValueRoundTrip(typ: nat, v: Value)
    requires ValueOk(typ, v)
    ensures ReadValue(typ, ValueBytes(v)) == Some(Read(v, |ValueBytes(v)|))
  {
    hide ReadValue, ValueBytes;
    match v
    case ErrCode(_, _) => ErrCodeRoundTrip(typ, v);
    case Str(_) => StrRoundTrip(typ, v);
    case SupAttrs(_) => SupAttrsRoundTrip(typ, v);
    case SupPrims(_) => SupPrimsRoundTrip(typ, v);
    case _ => FixedRoundTrip(typ, v);
  }

  /** Values of two bytes. */
  lemma FixedRoundTrip(typ: nat, v: Value)
    requires ValueOk(typ, v) && (v.U16? || v.Priority? || v.ReqStatus?)
    ensures ReadValue(typ, ValueBytes(v)) == Some(Read(v, |ValueBytes(v)|))
  {
  }

  lemma ErrCodeRoundTrip(typ: nat, v: Value)
    requires ValueOk(typ, v) && v.ErrCode?
    ensures ReadValue(typ, ValueBytes(v)) == Some(Read(v, |ValueBytes(v)|))
  {
    assert ValueBytes(v)[1..] == v.details;
  }

  lemma StrRoundTrip(typ: nat, v: Value)
    requires ValueOk(typ, v) && v.Str?
    ensures ReadValue(typ, ValueBytes(v)) == Some(Read(v, |ValueBytes(v)|))
  {
  }

  lemma SupPrimsRoundTrip(typ: nat, v: Value)
    requires ValueOk(typ, v) && v.SupPrims?
    ensures ReadValue(typ, ValueBytes(v)) == Some(Read(v, |ValueBytes(v)|))
  {
    var s := ValueBytes(v);
    assert seq(|s|, i requires 0 <= i < |s| => s[i]) == v.primv;
  }

  lemma SupAttrsRoundTrip(typ: nat, v: Value)
    requires ValueOk(typ, v) && v.SupAttrs?
    ensures ReadValue(typ, ValueBytes(v)) == Some(Read(v, |ValueBytes(v)|))
  {
    var s, a := ValueBytes(v), v.attrv;
    forall i | 0 <= i < |a| ensures s[i] / 2 == a[i] {
      assert a[i] * 2 % 256 == a[i] * 2;
    }
    assert seq(|s|, i requires 0 <= i < |s| => s[i] / 2) == a;
  }

  // ---------------------------------------------------------------- encoding

  function Padding(n: nat): (k: nat)
    ensures k < 4 && (n + k) % 4 == 0
  {
    (4 - n % 4) % 4
  }

  /** One attribute: header, value, padding, sub-attributes. */
  function EncodeAttr(a: Attr): (s: seq<Byte>)
    ensures |s| >= HDR_SIZE
    decreases a, 2
  {
    [a.typ % 128 * 2 + (if a.mand then 1 else 0), Length(a) % 256] + Own(a) + EncodeAttrs(a.subs)
  }

  /** The value of an attribute, padded to a whole number of words. */
  function Own(a: Attr): (s: seq<Byte>)
    ensures (HDR_SIZE + |s|) % 4 == 0
  {
    ValueBytes(a.v) + Zeros(Padding(HDR_SIZE + |ValueBytes(a.v)|))
  }

  /** The length field: without padding for a plain attribute, of everything for a grouped one. */
  function Length(a: Attr): (n: nat)
    decreases a, 1
  {
    if a.subs == [] then HDR_SIZE + |ValueBytes(a.v)| else HDR_SIZE + |Own(a)| + |EncodeAttrs(a.subs)|
  }

  function EncodeAttrs(l: seq<Attr>): (s: seq<Byte>)
    decreases l, 0
  {
    if l == [] then [] else EncodeAttr(l[0]) + EncodeAttrs(l[1..])
  }

  // ---------------------------------------------------------------- decoding

  /** A decoded attribute, where the decoder stands after it, and unknown mandatory types met. */
  datatype One = One(attr: Attr, pos: nat, unknown: seq<nat>)
  datatype Many = Many(attrs: seq<Attr>, pos: nat, unknown: seq<nat>)

  /** Skipping the padding of an attribute that began at start. */
  function Aligned(start: nat, pos: nat, end: nat): (p: nat)
    requires start <= pos <= end
    ensures pos <= p <= end
  {
    var p := pos + Padding(pos - start);
    if p <= end then p else end
  }

  /** attr_decode at pos, in a buffer that ends at end. */
  function DecodeAttr(buf: seq<Byte>, pos: nat, end: nat): (r: Result<One>)
    requires pos + HDR_SIZE <= end <= |buf|
    ensures r.Ok? ==> pos + HDR_SIZE <= r.value.pos <= end
    decreases end - pos, 0
  {
    var typ, mand, total := buf[pos] / 2, buf[pos] % 2 == 1, buf[pos + 1];
    if total < HDR_SIZE || end - pos < total then Err(EBADMSG)
    else match ReadValue(typ, buf[pos + HDR_SIZE..pos + total])
      case None => Err(EBADMSG)
      case Some(read) =>
        var at := pos + HDR_SIZE + read.used;
        match (if IsGrouped(typ) then DecodeAttrs(buf, at, pos + total) else Ok(Many([], at, [])))
        case Err(e) => Err(e)
        case Ok(inner) =>
          var own := if read.v.Unknown? && mand then [typ * 2] else [];
          Ok(One(Attr(typ, mand, read.v, inner.attrs), Aligned(pos, inner.pos, end), own + inner.unknown))
  }

  /** bfcp_attrs_decode on the bytes from pos to end. */
  function DecodeAttrs(buf: seq<Byte>, pos: nat, end: nat): (r: Result<Many>)
    requires pos <= end <= |buf|
    ensures r.Ok? ==> pos <= r.value.pos <= end
    decreases end - pos, 1
  {
    if end - pos < HDR_SIZE then Ok(Many([], pos, []))
    else match DecodeAttr(buf, pos, end)
      case Err(e) => Err(e)
      case Ok(one) =>
        match DecodeAttrs(buf, one.pos, end)
        case Err(e) => Err(e)
        case Ok(rest) => Ok(Many([one.attr] + rest.attrs, rest.pos, one.unknown + rest.unknown))
  }

  // ---------------------------------------------------------------- round trip

  /** Values in range, sub-attributes only where they are decoded, and every length in a byte. */
  ghost predicate AttrOk(a: Attr) {
    && ValueOk(a.typ, a.v) && Length(a) <= 255
    && (a.subs != [] ==> IsGrouped(a.typ))
    && AttrsOk(a.subs)
  }

  ghost predicate AttrsOk(l: seq<Attr>) {
    forall i :: 0 <= i < |l| ==> AttrOk(l[i])
  }

  /** Encoded attributes are whole words. */
  lemma {:induction false} WholeWords(l: seq<Attr>)
    ensures |EncodeAttrs(l)| % 4 == 0
  {
    hide EncodeAttr;
    if l != [] {
      WholeWord(l[0]);
      WholeWords(l[1..]);
    }
  }

  lemma {:induction false} WholeWord(a: Attr)
    ensures |EncodeAttr(a)| % 4 == 0 && |EncodeAttr(a)| >= 4
    ensures |EncodeAttr(a)| == HDR_SIZE + |Own(a)| + |EncodeAttrs(a.subs)|
  {
    hide ValueBytes, Length;
    WholeWords(a.subs);
  }

  /** The header and value of an encoded attribute, found in a buffer. */
  lemma EncodedParts(a: Attr, buf: seq<Byte>, pos: nat)
    requires pos + |EncodeAttr(a)| <= |buf| && buf[pos..pos + |EncodeAttr(a)|] == EncodeAttr(a)
    requires ValueOk(a.typ, a.v) && Length(a) <= 255
    ensures var own := HDR_SIZE + |Own(a)|;
            && own + |EncodeAttrs(a.subs)| == |EncodeAttr(a)|
            && buf[pos] / 2 == a.typ && (buf[pos] % 2 == 1) == a.mand && buf[pos + 1] == Length(a)
            && buf[pos + HDR_SIZE..pos + HDR_SIZE + |ValueBytes(a.v)|] == ValueBytes(a.v)
            && buf[pos + own..pos + |EncodeAttr(a)|] == EncodeAttrs(a.subs)
  {
    hide EncodeAttrs, ValueBytes, Length, ValueOk;
    TypeFits(a.typ, a.v);
    var h0, h1 := a.typ % 128 * 2 + (if a.mand then 1 else 0), Length(a) % 256;
    var n := |ValueBytes(a.v)|;
    var pad := Zeros(Padding(HDR_SIZE + n));
    Layout(h0, h1, ValueBytes(a.v), pad, EncodeAttrs(a.subs));
    var e := EncodeAttr(a);
    Slice(buf, pos, e, HDR_SIZE, HDR_SIZE + n);
    Slice(buf, pos, e, HDR_SIZE + |Own(a)|, |e|);
    assert buf[pos] == buf[pos..pos + |e|][0] && buf[pos + 1] == buf[pos..pos + |e|][1];
  }

  lemma Layout(h0: Byte, h1: Byte, val: seq<Byte>, pad: seq<Byte>, subs: seq<Byte>)
    ensures var e := [h0, h1] + (val + pad) + subs;
            && e[0] == h0 && e[1] == h1 && e[2..2 + |val|] == val && e[2 + |val + pad|..|e|] == subs
  {
  }

  lemma Slice(buf: seq<Byte>, pos: nat, s: seq<Byte>, i: nat, j: nat)
    requires pos + |s| <= |buf| && buf[pos..pos + |s|] == s && i <= j <= |s|
    ensures buf[pos + i..pos + j] == s[i..j]
  {
    forall k | 0 <= k < j - i ensures buf[pos + i..pos + j][k] == s[i..j][k] {
      assert buf[pos..pos + |s|][i + k] == buf[pos + i + k];
    }
  }

  lemma TypeFits(typ: nat, v: Value)
    requires ValueOk(typ, v)
    ensures typ < 128 && typ % 128 == typ && !v.Unknown? && (IsGrouped(typ) ==> |ValueBytes(v)| == 2)
  {
  }

  /** The two steps of the decoder, put together from their parts. */
  lemma AttrStep(buf: seq<Byte>, pos: nat, end: nat, a: Attr, used: nat, at: nat)
    requires pos + HDR_SIZE <= end <= |buf| && pos + HDR_SIZE <= pos + buf[pos + 1] <= end
    requires buf[pos] / 2 == a.typ && (buf[pos] % 2 == 1) == a.mand && !a.v.Unknown?
    requires ReadValue(a.typ, buf[pos + HDR_SIZE..pos + buf[pos + 1]]) == Some(Read(a.v, used))
    requires if IsGrouped(a.typ)
             then DecodeAttrs(buf, pos + HDR_SIZE + used, pos + buf[pos + 1]) == Ok(Many(a.subs, at, []))
             else a.subs == [] && at == pos + HDR_SIZE + used
    ensures pos <= at <= end && DecodeAttr(buf, pos, end) == Ok(One(a, Aligned(pos, at, end), []))
  {
    hide ReadValue, DecodeAttrs, Aligned;
    assert a == Attr(a.typ, a.mand, a.v, a.subs);
    var none: seq<nat> := [];
    assert none + none == none;
  }

  lemma AttrsStep(buf: seq<Byte>, pos: nat, end: nat, a: Attr, next: nat, rest: seq<Attr>, at: nat)
    requires pos + HDR_SIZE <= end <= |buf|
    requires DecodeAttr(buf, pos, end) == Ok(One(a, next, []))
    requires DecodeAttrs(buf, next, end) == Ok(Many(rest, at, []))
    ensures DecodeAttrs(buf, pos, end) == Ok(Many([a] + rest, at, []))
  {
    hide DecodeAttr;
    var none: seq<nat> := [];
    assert none + none == none;
  }

  /** Decoding an encoded attribute, wherever it stands, gives it back and stops right after it. */
  lemma {:induction false} AttrRoundTrip(a: Attr, buf: seq<Byte>, pos: nat, end: nat)
    requires AttrOk(a) && pos + |EncodeAttr(a)| <= end <= |buf|
    requires buf[pos..pos + |EncodeAttr(a)|] == EncodeAttr(a)
    ensures DecodeAttr(buf, pos, end) == Ok(One(a, pos + |EncodeAttr(a)|, []))
    decreases a, 0
  {
    hide ValueBytes, ReadValue, EncodeAttrs, DecodeAttrs, EncodeAttr, DecodeAttr, ValueOk;
    EncodedParts(a, buf, pos);
    WholeWord(a);
    ValueRoundTrip(a.typ, a.v);
    TypeFits(a.typ, a.v);
    var n := |ValueBytes(a.v)|;
    var all := pos + |EncodeAttr(a)|;
    NoAttrs(buf, pos + HDR_SIZE + n);
    if a.subs == [] {
      AttrStep(buf, pos, end, a, n, pos + HDR_SIZE + n);
    } else {
      assert |Own(a)| == n == 2 && Length(a) == |EncodeAttr(a)|;
      assert buf[pos + HDR_SIZE..pos + Length(a)] == buf[pos + HDR_SIZE..all];
      AttrsRoundTrip(a.subs, buf, pos + HDR_SIZE + n);
      assert buf[pos + HDR_SIZE..all][..2] == buf[pos + HDR_SIZE..pos + HDR_SIZE + n];
      GroupedValue(a.typ, a.v, buf[pos + HDR_SIZE..all]);
      AttrStep(buf, pos, end, a, n, all);
    }
  }

  /** A grouped attribute takes its identifier from the first two bytes, whatever follows. */
  lemma GroupedValue(typ: nat, v: Value, s: seq<Byte>)
    requires IsGrouped(typ) && |s| >= 2 && ReadValue(typ, s[..2]) == Some(Read(v, 2))
    ensures ReadValue(typ, s) == Some(Read(v, 2))
  {
  }

  lemma NoAttrs(buf: seq<Byte>, pos: nat)
    requires pos <= |buf|
    ensures EncodeAttrs([]) == [] && DecodeAttrs(buf, pos, pos) == Ok(Many([], pos, []))
  {
  }

  lemma {:induction false} AttrsRoundTrip(l: seq<Attr>, buf: seq<Byte>, pos: nat)
    requires AttrsOk(l) && pos + |EncodeAttrs(l)| <= |buf|
    requires buf[pos..pos + |EncodeAttrs(l)|] == EncodeAttrs(l)
    ensures DecodeAttrs(buf, pos, pos + |EncodeAttrs(l)|) == Ok(Many(l, pos + |EncodeAttrs(l)|, []))
    decreases l, 1
  {
    hide EncodeAttr, DecodeAttr, DecodeAttrs, AttrOk, Length, Own;
    if l == [] {
      NoAttrs(buf, pos);
    } else {
      assert AttrOk(l[0]) && AttrsOk(l[1..]);
      var e, rest := EncodeAttr(l[0]), EncodeAttrs(l[1..]);
      var end := pos + |EncodeAttrs(l)|;
      WholeWord(l[0]);
      Parts(buf, pos, e, rest);
      AttrRoundTrip(l[0], buf, pos, end);
      AttrsRoundTrip(l[1..], buf, pos + |e|);
      AttrsStep(buf, pos, end, l[0], pos + |e|, l[1..], end);
      assert [l[0]] + l[1..] == l;
    }
  }

  lemma Parts(buf: seq<Byte>, pos: nat, a: seq<Byte>, b: seq<Byte>)
    requires pos + |a + b| <= |buf| && buf[pos..pos + |a + b|] == a + b
    ensures buf[pos..pos + |a|] == a
    ensures buf[pos + |a|..pos + |a| + |b|] == b
  {
    var s := buf[pos..pos + |a + b|];
    assert buf[pos..pos + |a|] == s[..|a|];
    assert buf[pos + |a|..pos + |a| + |b|] == s[|a|..];
  }
}
