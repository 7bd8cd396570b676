/**
 BFCP messages: the twelve-byte header of bfcp/msg.c in front of a list of attributes.
 Section 5.1 of RFC 4582.
 */
module BfcpMsg {
  import opened Bytes
  import opened BfcpAttr

  const MSG_HDR_SIZE := 12
  const MAX_UNKNOWN := 16

  /** The header fields of struct bfcp_msg; len counts words of attributes. */
  datatype Header = Header(ver: nat, r: bool, prim: nat, len: nat, confid: nat, tid: nat, userid: nat)

  datatype Msg = Msg(hdr: Header, attrs: seq<Attr>, unknown: seq<nat>)

  function Be32(n: nat): (s: seq<Byte>)
    ensures |s| == 4
  {
    [n / 0x100_0000 % 256, n / 0x1_0000 % 256, n / 256 % 256, n % 256]
  }

  function U16At(s: seq<Byte>, i: nat): (n: nat)
    requires i + 2 <= |s|
  {
    s[i] as int * 256 + s[i + 1]
  }

  function U32At(s: seq<Byte>, i: nat): (n: nat)
    requires i + 4 <= |s|
  {
    ((s[i] as int * 256 + s[i + 1]) * 256 + s[i + 2]) * 256 + s[i + 3]
  }

  /** hdr_encode. */
  function EncodeHeader(h: Header): (s: seq<Byte>)
    ensures |s| == MSG_HDR_SIZE
  {
    [h.ver * 32 % 256 + (if h.r then 16 else 0), h.prim % 256] + Be16(h.len) + Be32(h.confid) + Be16(h.tid) + Be16(h.userid)
  }

  /** hdr_decode at pos; the message may be followed by other bytes. */
  function DecodeHeader(buf: seq<Byte>, pos: nat): (r: Result<Header>)
    requires pos <= |buf|
    ensures r.Ok? ==> pos + MSG_HDR_SIZE + 4 * r.value.len <= |buf|
  {
    if |buf| - pos < MSG_HDR_SIZE then Err(ENODATA)
    else
      var b := buf[pos];
      var h := Header(b / 32, b / 16 % 2 == 1, buf[pos + 1], U16At(buf, pos + 2), U32At(buf, pos + 4),
                      U16At(buf, pos + 8), U16At(buf, pos + 10));
      if h.ver != 1 && h.ver != 2 then Err(EBADMSG)
      else if b / 8 % 2 == 1 then Err(ENOSYS)
      else if |buf| - pos - MSG_HDR_SIZE < 4 * h.len then Err(ENODATA)
      else Ok(h)
  }

  /** bfcp_msg_vencode: the length in words is that of the attributes. */
  function EncodeMsg(h: Header, attrs: seq<Attr>): (s: seq<Byte>) {
    EncodeHeader(h.(len := |EncodeAttrs(attrs)| / 4)) + EncodeAttrs(attrs)
  }

  datatype Decoded = Decoded(msg: Msg, pos: nat)

  /** bfcp_msg_decode at pos. */
  function DecodeMsg(buf: seq<Byte>, pos: nat): (r: Result<Decoded>)
    requires pos <= |buf|
  {
    match DecodeHeader(buf, pos)
    case Err(e) => Err(e)
    case Ok(h) =>
      match DecodeAttrs(buf, pos + MSG_HDR_SIZE, pos + MSG_HDR_SIZE + 4 * h.len)
      case Err(e) => Err(e)
      case Ok(m) =>
        var unknown := if |m.unknown| <= MAX_UNKNOWN then m.unknown else m.unknown[..MAX_UNKNOWN];
        Ok(Decoded(Msg(h, m.attrs, unknown), m.pos))
  }

  ghost predicate HeaderOk(h: Header) {
    && (h.ver == 1 || h.ver == 2) && h.prim < 256 && h.len < 0x1_0000
    && h.confid < 0x1_0000_0000 && h.tid < 0x1_0000 && h.userid < 0x1_0000
  }

  lemma Be16RoundTrip(n: nat, s: seq<Byte>, i: nat)
    requires n < 0x1_0000 && i + 2 <= |s| && s[i..i + 2] == Be16(n)
    ensures U16At(s, i) == n
  {
    assert s[i] == s[i..i + 2][0] && s[i + 1] == s[i..i + 2][1];
  }

  lemma Be32RoundTrip(n: nat, s: seq<Byte>, i: nat)
    requires n < 0x1_0000_0000 && i + 4 <= |s| && s[i..i + 4] == Be32(n)
    ensures U32At(s, i) == n
  {
    var t := s[i..i + 4];
    assert s[i] == t[0] && s[i + 1] == t[1] && s[i + 2] == t[2] && s[i + 3] == t[3];
    var a, b := n / 256, n / 0x1_0000;
    assert a / 256 == b && b / 256 == n / 0x100_0000;
    assert n == a * 256 + n % 256 && a == b * 256 + a % 256 && b == b / 256 * 256 + b % 256;
  }

  lemma HeaderParts(h: Header, buf: seq<Byte>, pos: nat)
    requires pos + MSG_HDR_SIZE <= |buf| && buf[pos..pos + MSG_HDR_SIZE] == EncodeHeader(h)
    ensures buf[pos] == h.ver * 32 % 256 + (if h.r then 16 else 0) && buf[pos + 1] == h.prim % 256
    ensures buf[pos + 2..pos + 4] == Be16(h.len) && buf[pos + 4..pos + 8] == Be32(h.confid)
    ensures buf[pos + 8..pos + 10] == Be16(h.tid) && buf[pos + 10..pos + 12] == Be16(h.userid)
  {
    hide Be16, Be32;
    var s := EncodeHeader(h);
    assert s[0] == buf[pos] && s[1] == buf[pos + 1];
    assert s[2..4] == Be16(h.len) && s[4..8] == Be32(h.confid) && s[8..10] == Be16(h.tid) && s[10..12] == Be16(h.userid);
    Slice(buf, pos, s, 2, 4);
    Slice(buf, pos, s, 4, 8);
    Slice(buf, pos, s, 8, 10);
    Slice(buf, pos, s, 10, 12);
  }

  lemma HeaderRoundTrip(h: Header, buf: seq<Byte>, pos: nat)
    requires HeaderOk(h) && pos + MSG_HDR_SIZE + 4 * h.len <= |buf|
    requires buf[pos..pos + MSG_HDR_SIZE] == EncodeHeader(h)
    ensures DecodeHeader(buf, pos) == Ok(h)
  {
    hide EncodeHeader, Be16, Be32, U16At, U32At;
    HeaderParts(h, buf, pos);
    Be16RoundTrip(h.len, buf, pos + 2);
    Be32RoundTrip(h.confid, buf, pos + 4);
    Be16RoundTrip(h.tid, buf, pos + 8);
    Be16RoundTrip(h.userid, buf, pos + 10);
  }

  /**
   The law of the codec: for every attribute tree whose lengths fit their fields, decoding the
   encoded message, wherever it stands and whatever follows, gives the same header and the same
   tree, reports no unknown attribute, and consumes exactly the bytes that were written.
   */
  lemma MsgRoundTrip(h: Header, attrs: seq<Attr>, before: seq<Byte>, after: seq<Byte>)
    requires AttrsOk(attrs) && HeaderOk(h.(len := |EncodeAttrs(attrs)| / 4))
    ensures var s := EncodeMsg(h, attrs);
            DecodeMsg(before + s + after, |before|) ==
              Ok(Decoded(Msg(h.(len := |EncodeAttrs(attrs)| / 4), attrs, []), |before| + |s|))
  {
    hide EncodeAttrs, DecodeAttrs, EncodeHeader, DecodeHeader;
    var body, pos := EncodeAttrs(attrs), |before|;
    var h' := h.(len := |body| / 4);
    var buf := before + EncodeMsg(h, attrs) + after;
    WholeWords(attrs);
    assert buf[pos..pos + MSG_HDR_SIZE] == EncodeHeader(h');
    assert buf[pos + MSG_HDR_SIZE..pos + MSG_HDR_SIZE + |body|] == body;
    HeaderRoundTrip(h', buf, pos);
    AttrsRoundTrip(attrs, buf, pos + MSG_HDR_SIZE);
  }
}
