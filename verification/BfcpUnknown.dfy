/**
 BFCP messages from a peer that knows more: attributes of unknown types anywhere in the tree are
 skipped whole, the others are read as they are, and the unknown mandatory types are reported.
 */
module BfcpUnknown {
  import opened Bytes
  import opened BfcpAttr
  import opened BfcpMsg

  /** An attribute as such a peer writes it: a known one, or a type that this library has no name for. */
  datatype Item =
    | Plain(typ: nat, mand: bool, v: Value, subs: seq<Item>)
    | Raw(typ: nat, mand: bool, bytes: seq<Byte>, pad: seq<Byte>)

  /** What it is to the receiver. */
  function Meaning(i: Item): (a: Attr)
    decreases i, 1
  {
    match i
    case Plain(typ, mand, v, subs) => Attr(typ, mand, v, Meanings(subs))
    case Raw(typ, mand, _, _) => Attr(typ, mand, Unknown, [])
  }

  function Meanings(l: seq<Item>): (r: seq<Attr>)
    ensures |r| == |l|
    decreases l, 0
  {
    if l == [] then [] else [Meaning(l[0])] + Meanings(l[1..])
  }

  /** The unknown types that must be understood, in the order they are met, as they are reported. */
  function Reported(i: Item): (r: seq<nat>)
    decreases i, 1
  {
    match i
    case Plain(_, _, _, subs) => AllReported(subs)
    case Raw(typ, mand, _, _) => if mand then [typ * 2] else []
  }

  function AllReported(l: seq<Item>): (r: seq<nat>)
    decreases l, 0
  {
    if l == [] then [] else Reported(l[0]) + AllReported(l[1..])
  }

  function Padded(v: Value): (s: seq<Byte>) {
    ValueBytes(v) + Zeros(Padding(HDR_SIZE + |ValueBytes(v)|))
  }

  function ItemBytes(i: Item): (s: seq<Byte>)
    decreases i, 2
  {
    match i
    case Plain(typ, mand, v, subs) =>
      [typ % 128 * 2 + (if mand then 1 else 0), ItemLength(i) % 256] + Padded(v) + AllBytes(subs)
    case Raw(typ, mand, bytes, pad) =>
      [typ % 128 * 2 + (if mand then 1 else 0), (HDR_SIZE + |bytes|) % 256] + (bytes + pad) + []
  }

  function ItemLength(i: Item): (n: nat)
    decreases i, 1
  {
    match i
    case Plain(_, _, v, subs) =>
      if subs == [] then HDR_SIZE + |ValueBytes(v)| else HDR_SIZE + |Padded(v)| + |AllBytes(subs)|
    case Raw(_, _, bytes, _) => HDR_SIZE + |bytes|
  }

  function AllBytes(l: seq<Item>): (s: seq<Byte>)
    decreases l, 0
  {
    if l == [] then [] else ItemBytes(l[0]) + AllBytes(l[1..])
  }

  ghost predicate ItemOk(i: Item)
    decreases i, 1
  {
    ItemLength(i) <= 255 &&
    match i
    case Plain(typ, _, v, subs) => ValueOk(typ, v) && (subs != [] ==> IsGrouped(typ)) && AllOk(subs)
    case Raw(typ, _, bytes, pad) => !(1 <= typ <= 18) && typ < 128 && |pad| == Padding(HDR_SIZE + |bytes|)
  }

  ghost predicate AllOk(l: seq<Item>)
    decreases l, 0
  {
    l == [] || (ItemOk(l[0]) && AllOk(l[1..]))
  }

  lemma WholeSize(h: nat, val: nat, pad: nat, subs: nat)
    requires h == HDR_SIZE && pad == Padding(h + val) && subs % 4 == 0
    ensures (h + val + pad + subs) % 4 == 0 && h + val + pad >= 4
  {
  }

  lemma {:induction false} ItemWords(i: Item)
    requires ItemOk(i)
    ensures |ItemBytes(i)| % 4 == 0 && |ItemBytes(i)| >= 4
    decreases i, 1
  {
    hide ValueBytes, Padding, ItemLength;
    match i
    case Plain(_, _, v, subs) =>
      AllWords(subs);
      WholeSize(HDR_SIZE, |ValueBytes(v)|, Padding(HDR_SIZE + |ValueBytes(v)|), |AllBytes(subs)|);
    case Raw(_, _, bytes, pad) =>
      WholeSize(HDR_SIZE, |bytes|, |pad|, 0);
  }

  lemma {:induction false} AllWords(l: seq<Item>)
    requires AllOk(l)
    ensures |AllBytes(l)| % 4 == 0
    decreases l, 0
  {
    hide ItemBytes;
    if l != [] {
      ItemWords(l[0]);
      AllWords(l[1..]);
    }
  }

  // ---------------------------------------------------------------- the decoder, step by step

  /** Header, value, padding and sub-attributes of an item, found in a buffer. */
  lemma PartsAt(buf: seq<Byte>, pos: nat, h0: Byte, h1: Byte, val: seq<Byte>, pad: seq<Byte>, subs: seq<Byte>)
    requires var e := [h0, h1] + (val + pad) + subs; pos + |e| <= |buf| && buf[pos..pos + |e|] == e
    ensures var own := HDR_SIZE + |val| + |pad|;
            && buf[pos] == h0 && buf[pos + 1] == h1
            && buf[pos + HDR_SIZE..pos + HDR_SIZE + |val|] == val
            && buf[pos + own..pos + own + |subs|] == subs
  {
    var e := [h0, h1] + (val + pad) + subs;
    Layout(h0, h1, val, pad, subs);
    Slice(buf, pos, e, HDR_SIZE, HDR_SIZE + |val|);
    Slice(buf, pos, e, HDR_SIZE + |val + pad|, |e|);
    assert buf[pos] == buf[pos..pos + |e|][0] && buf[pos + 1] == buf[pos..pos + |e|][1];
  }

  lemma Step(buf: seq<Byte>, pos: nat, end: nat, a: Attr, used: nat, at: nat, unknown: seq<nat>)
    requires pos + HDR_SIZE <= end <= |buf| && pos + HDR_SIZE <= pos + buf[pos + 1] <= end
    requires buf[pos] / 2 == a.typ && (buf[pos] % 2 == 1) == a.mand
    requires ReadValue(a.typ, buf[pos + HDR_SIZE..pos + buf[pos + 1]]) == Some(Read(a.v, used))
    requires if IsGrouped(a.typ)
             then DecodeAttrs(buf, pos + HDR_SIZE + used, pos + buf[pos + 1]) == Ok(Many(a.subs, at, unknown))
             else a.subs == [] && at == pos + HDR_SIZE + used && unknown == []
    ensures pos <= at <= end
    ensures var own := if a.v.Unknown? && a.mand then [a.typ * 2] else [];
            DecodeAttr(buf, pos, end) == Ok(One(a, Aligned(pos, at, end), own + unknown))
  {
    hide ReadValue, DecodeAttrs, Aligned;
    assert a == Attr(a.typ, a.mand, a.v, a.subs);
  }

  lemma Steps(buf: seq<Byte>, pos: nat, end: nat, one: One, many: Many)
    requires pos + HDR_SIZE <= end <= |buf| && one.pos <= end
    requires DecodeAttr(buf, pos, end) == Ok(one) && DecodeAttrs(buf, one.pos, end) == Ok(many)
    ensures DecodeAttrs(buf, pos, end) == Ok(Many([one.attr] + many.attrs, many.pos, one.unknown + many.unknown))
  {
    hide DecodeAttr;
  }

  lemma UnknownValue(typ: nat, s: seq<Byte>)
    requires !(1 <= typ <= 18)
    ensures ReadValue(typ, s) == Some(Read(Unknown, |s|)) && !IsGrouped(typ)
  {
  }

  lemma HeaderByte(typ: nat, mand: bool)
    requires typ < 128
    ensures var h := typ % 128 * 2 + (if mand then 1 else 0); h / 2 == typ && (h % 2 == 1) == mand
  {
  }

  lemma AlignedAt(pos: nat, size: nat, pad: nat, end: nat)
    requires pad == Padding(size) && pos + size + pad <= end
    ensures Aligned(pos, pos + size, end) == pos + size + pad
  {
  }

  lemma {:induction false} RawDecodes(i: Item, buf: seq<Byte>, pos: nat, end: nat)
    requires ItemOk(i) && i.Raw? && pos + |ItemBytes(i)| <= end <= |buf|
    requires buf[pos..pos + |ItemBytes(i)|] == ItemBytes(i)
    ensures DecodeAttr(buf, pos, end) == Ok(One(Meaning(i), pos + |ItemBytes(i)|, Reported(i)))
  {
    hide ReadValue, DecodeAttr, DecodeAttrs, Padding, Aligned;
    var n := |i.bytes|;
    HeaderByte(i.typ, i.mand);
    PartsAt(buf, pos, i.typ % 128 * 2 + (if i.mand then 1 else 0), (HDR_SIZE + n) % 256, i.bytes, i.pad, []);
    UnknownValue(i.typ, i.bytes);
    Step(buf, pos, end, Meaning(i), n, pos + HDR_SIZE + n, []);
    AlignedAt(pos, HDR_SIZE + n, |i.pad|, end);
    assert Reported(i) + [] == Reported(i);
  }

  lemma {:induction false} ItemDecodes(i: Item, buf: seq<Byte>, pos: nat, end: nat)
    requires ItemOk(i) && pos + |ItemBytes(i)| <= end <= |buf|
    requires buf[pos..pos + |ItemBytes(i)|] == ItemBytes(i)
    ensures DecodeAttr(buf, pos, end) == Ok(One(Meaning(i), pos + |ItemBytes(i)|, Reported(i)))
    decreases i, 1
  {
    hide ItemBytes, DecodeAttr;
    match i
    case Raw(_, _, _, _) => RawDecodes(i, buf, pos, end);
    case Plain(_, _, _, subs) =>
      if subs == [] {
        PlainDecodes(i, buf, pos, end);
      } else {
        GroupFacts(i, buf, pos);
        var at := pos + HDR_SIZE + 2;
        ItemsDecode(subs, buf, at);
        GroupDecodes(i, buf, pos, end);
      }
  }

  /** A known attribute without sub-attributes. */
  lemma PlainDecodes(i: Item, buf: seq<Byte>, pos: nat, end: nat)
    requires ItemOk(i) && i.Plain? && i.subs == [] && pos + |ItemBytes(i)| <= end <= |buf|
    requires buf[pos..pos + |ItemBytes(i)|] == ItemBytes(i)
    ensures DecodeAttr(buf, pos, end) == Ok(One(Meaning(i), pos + |ItemBytes(i)|, Reported(i)))
  {
    hide ValueBytes, ReadValue, DecodeAttr, DecodeAttrs, Padding, Aligned, ValueOk;
    var val := ValueBytes(i.v);
    var n := |val|;
    var pad := Zeros(Padding(HDR_SIZE + n));
    TypeFits(i.typ, i.v);
    HeaderByte(i.typ, i.mand);
    PartsAt(buf, pos, i.typ % 128 * 2 + (if i.mand then 1 else 0), (HDR_SIZE + n) % 256, val, pad, []);
    ValueRoundTrip(i.typ, i.v);
    NoAttrs(buf, pos + HDR_SIZE + n);
    Step(buf, pos, end, Meaning(i), n, pos + HDR_SIZE + n, []);
    AlignedAt(pos, HDR_SIZE + n, |pad|, end);
    var none: seq<nat> := [];
    assert none + none == none && |ItemBytes(i)| == HDR_SIZE + n + |pad|;
  }

  /** Where the parts of a grouped attribute are. */
  lemma GroupFacts(i: Item, buf: seq<Byte>, pos: nat)
    requires ItemOk(i) && i.Plain? && i.subs != [] && pos + |ItemBytes(i)| <= |buf|
    requires buf[pos..pos + |ItemBytes(i)|] == ItemBytes(i)
    ensures var all := HDR_SIZE + 2 + |AllBytes(i.subs)|;
            && |ItemBytes(i)| == all == ItemLength(i) <= 255 && IsGrouped(i.typ) && AllOk(i.subs)
            && buf[pos] / 2 == i.typ && (buf[pos] % 2 == 1) == i.mand && buf[pos + 1] == all
            && buf[pos + HDR_SIZE..pos + HDR_SIZE + 2] == ValueBytes(i.v)
            && buf[pos + HDR_SIZE + 2..pos + all] == AllBytes(i.subs)
  {
    hide ValueBytes, ValueOk, AllBytes, AllOk;
    TypeFits(i.typ, i.v);
    HeaderByte(i.typ, i.mand);
    PartsAt(buf, pos, i.typ % 128 * 2 + (if i.mand then 1 else 0), ItemLength(i) % 256, ValueBytes(i.v),
            Zeros(Padding(HDR_SIZE + |ValueBytes(i.v)|)), AllBytes(i.subs));
  }

  lemma GroupDecodes(i: Item, buf: seq<Byte>, pos: nat, end: nat)
    requires ItemOk(i) && i.Plain? && i.subs != [] && pos + |ItemBytes(i)| <= end <= |buf|
    requires buf[pos..pos + |ItemBytes(i)|] == ItemBytes(i)
    requires pos + HDR_SIZE + 2 + |AllBytes(i.subs)| <= |buf|
    requires var at := pos + HDR_SIZE + 2;
             DecodeAttrs(buf, at, at + |AllBytes(i.subs)|) ==
             Ok(Many(Meanings(i.subs), at + |AllBytes(i.subs)|, AllReported(i.subs)))
    ensures DecodeAttr(buf, pos, end) == Ok(One(Meaning(i), pos + |ItemBytes(i)|, Reported(i)))
  {
    hide ValueBytes, ReadValue, DecodeAttr, DecodeAttrs, ValueOk, AllBytes, ItemBytes, Padding, Aligned, AllOk, Meanings, AllReported;
    GroupFacts(i, buf, pos);
    TypeFits(i.typ, i.v);
    ValueRoundTrip(i.typ, i.v);
    var all := pos + ItemLength(i);
    assert buf[pos + HDR_SIZE..all][..2] == buf[pos + HDR_SIZE..pos + HDR_SIZE + 2];
    GroupedValue(i.typ, i.v, buf[pos + HDR_SIZE..all]);
    Step(buf, pos, end, Meaning(i), 2, all, AllReported(i.subs));
    ItemWords(i);
    WordAligned(pos, ItemLength(i), end);
    assert [] + AllReported(i.subs) == AllReported(i.subs);
  }

  lemma WordAligned(pos: nat, size: nat, end: nat)
    requires size % 4 == 0 && pos + size <= end
    ensures Aligned(pos, pos + size, end) == pos + size
  {
  }

  /**
   Decoding a list of known attributes with raw ones anywhere between and inside them: the known
   ones unchanged, one unknown attribute for each raw one, all in order; the unknown mandatory
   types in order; and the decoder stands right after the list.
   */
  lemma {:induction false} ItemsDecode(l: seq<Item>, buf: seq<Byte>, pos: nat)
    requires AllOk(l) && pos + |AllBytes(l)| <= |buf|
    requires buf[pos..pos + |AllBytes(l)|] == AllBytes(l)
    ensures DecodeAttrs(buf, pos, pos + |AllBytes(l)|) == Ok(Many(Meanings(l), pos + |AllBytes(l)|, AllReported(l)))
    decreases l, 0
  {
    hide ItemBytes, DecodeAttr, DecodeAttrs, ItemOk, Meaning, Reported;
    if l == [] {
      NoAttrs(buf, pos);
    } else {
      var e, rest := ItemBytes(l[0]), AllBytes(l[1..]);
      var end := pos + |AllBytes(l)|;
      ItemWords(l[0]);
      Parts(buf, pos, e, rest);
      ItemDecodes(l[0], buf, pos, end);
      ItemsDecode(l[1..], buf, pos + |e|);
      Steps(buf, pos, end, One(Meaning(l[0]), pos + |e|, Reported(l[0])), Many(Meanings(l[1..]), end, AllReported(l[1..])));
    }
  }

  /** The types that a message keeps for its error answer: the first sixteen. */
  function Kept(s: seq<nat>): (r: seq<nat>) {
    if |s| <= 16 then s else s[..16]
  }

  /** The same for a whole message, wherever it stands. */
  lemma MessageDecodes(h: Header, l: seq<Item>, before: seq<Byte>, after: seq<Byte>)
    requires AllOk(l) && HeaderOk(h.(len := |AllBytes(l)| / 4))
    ensures var h' := h.(len := |AllBytes(l)| / 4);
            var s := EncodeHeader(h') + AllBytes(l);
            DecodeMsg(before + s + after, |before|) ==
              Ok(Decoded(Msg(h', Meanings(l), Kept(AllReported(l))), |before| + |s|))
  {
    hide AllBytes, DecodeAttrs, EncodeHeader, DecodeHeader, Meanings, AllReported, AllOk;
    var body, pos := AllBytes(l), |before|;
    var h' := h.(len := |body| / 4);
    var buf := before + (EncodeHeader(h') + body) + after;
    AllWords(l);
    assert buf[pos..pos + MSG_HDR_SIZE] == EncodeHeader(h');
    assert buf[pos + MSG_HDR_SIZE..pos + MSG_HDR_SIZE + |body|] == body;
    HeaderRoundTrip(h', buf, pos);
    ItemsDecode(l, buf, pos + MSG_HDR_SIZE);
  }

  // ---------------------------------------------------------------- fixed-size values that claim more

  /**
   A value of two bytes is read as such whatever length the attribute claims, so the decoder goes on
   after the first word: right after the attribute exactly when that claims no more than a word.
   */
  lemma FixedSizeLeavesRest(buf: seq<Byte>, pos: nat, end: nat)
    requires pos + HDR_SIZE <= end <= |buf|
    requires var typ, total := buf[pos] / 2, buf[pos + 1]; 1 <= typ <= 5 && 4 <= total && pos + total + Padding(total) <= end
    ensures var total := buf[pos + 1];
            && DecodeAttr(buf, pos, end).Ok? && DecodeAttr(buf, pos, end).value.pos == pos + 4
            && (DecodeAttr(buf, pos, end).value.pos == pos + total + Padding(total) <==> total == 4)
  {
    hide DecodeAttrs;
    AlignedAt(pos, 4, 0, end);
  }
}
