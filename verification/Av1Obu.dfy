/**
 AV1 Open Bitstream Units: the header codec of av1_obu_encode and av1_obu_decode, the
 choice of units that travel over RTP, and the scan over a buffer of units.
 */
module Av1Obu {
  import opened Bytes
  import Leb128

  /** A unit as the application has it: its four-bit type and its payload. */
  datatype Obu = Obu(typ: nat, payload: seq<Byte>)

  /** The fields of a decoded header, and the number of bytes it took. */
  datatype Header = Header(typ: nat, hasSize: bool, size: nat, used: nat)

  predicate AllowedRtp(typ: nat) {
    typ == 1 || typ == 3 || typ == 4 || typ == 5 || typ == 6 || typ == 7
  }

  /** av1_obu_decode on the unread bytes s. */
  function DecodeHeader(s: seq<Byte>): (r: Result<Header>)
    ensures r.Ok? ==> 1 <= r.value.used && r.value.used + r.value.size <= |s| && r.value.typ < 16
  {
    if |s| < 1 then Err(EBADMSG)
    else
      var val := s[0];
      var typ := val / 8 % 16;
      if val / 128 % 2 == 1 then Err(EBADMSG)
      else if val / 4 % 2 == 1 then Err(ENOTSUP)
      else if val / 2 % 2 == 1 then
        match Leb128.DecodeAtMost(s[1..], Leb128.MAX_GROUPS)
        case None => Err(EBADMSG)
        case Some(n) =>
          if n.value > |s| - 1 - n.used then Err(EBADMSG)
          else Ok(Header(typ, true, n.value, 1 + n.used))
      else Ok(Header(typ, false, |s| - 1, 1))
  }

  /** av1_obu_encode: the bytes it appends. */
  function Encode(o: Obu, hasSize: bool): (s: seq<Byte>) {
    [o.typ % 16 * 8 + if hasSize then 2 else 0]
    + (if hasSize then Leb128.Encode(|o.payload|) else [])
    + o.payload
  }

  /** The form of a unit inside RTP packets: one header byte without size flag, then the payload. */
  function Wire(o: Obu): (s: seq<Byte>)
    ensures |s| == 1 + |o.payload|
  {
    [o.typ % 16 * 8] + o.payload
  }

  /**
   What a buffer of units still holds for RTP: the units to send, whether unread bytes follow
   the last of them, and the error that ends the scan, if any.
   */
  datatype Scan = Scan(obus: seq<Obu>, trailing: bool, failure: Option<Error>)

  function ScanBuffer(s: seq<Byte>): (r: Scan)
    decreases |s|
  {
    if |s| < 2 then Scan([], |s| > 0, None)
    else match DecodeHeader(s)
      case Err(e) => Scan([], true, Some(e))
      case Ok(h) =>
        var o := Obu(h.typ, s[h.used..h.used + h.size]);
        var next := ScanBuffer(s[h.used + h.size..]);
        if AllowedRtp(h.typ) then next.(obus := [o] + next.obus)
        else if next.obus == [] then next.(trailing := true)
        else next
  }

  ghost predicate WellFormed(s: seq<Byte>) {
    ScanBuffer(s).failure.None?
  }

  /** Unread bytes, unsent units and a pending failure are all gone together. */
  lemma {:induction false} NothingLeft(s: seq<Byte>)
    ensures s == [] <==> ScanBuffer(s) == Scan([], false, None)
    ensures ScanBuffer(s).failure.Some? && ScanBuffer(s).obus == [] ==> ScanBuffer(s).trailing
    decreases |s|
  {
    if |s| < 2 {
    } else if DecodeHeader(s).Ok? {
      var h := DecodeHeader(s).value;
      NothingLeft(s[h.used + h.size..]);
    }
  }

  /** av1_obu_count_rtp: how many units the packetizer will send, or 0 when the buffer is malformed. */
  method CountRtp(buf: seq<Byte>) returns (count: nat)
    ensures count == if WellFormed(buf) then |ScanBuffer(buf).obus| else 0
  {
    var s := buf;
    count := 0;
    while |s| > 1
      invariant WellFormed(buf) == WellFormed(s)
      invariant |ScanBuffer(buf).obus| == count + |ScanBuffer(s).obus|
      decreases |s|
    {
      var r := DecodeHeader(s);
      if r.Err? {
        return 0;
      }
      var h := r.value;
      if AllowedRtp(h.typ) {
        count := count + 1;
      }
      s := s[h.used + h.size..];
    }
  }

  // ---------------------------------------------------------------- the header codec

  ghost predicate Encodable(o: Obu) {
    o.typ < 16 && |o.payload| < Leb128.Pow128(Leb128.MAX_GROUPS)
  }

  /** A sized unit is read back with its own type and payload, whatever follows it. */
  lemma HeaderRoundTrip(o: Obu, rest: seq<Byte>)
    requires Encodable(o)
    ensures var s := Encode(o, true) + rest;
            var used := 1 + Leb128.Size(|o.payload|);
            && DecodeHeader(s) == Ok(Header(o.typ, true, |o.payload|, used))
            && s[used..used + |o.payload|] == o.payload
            && s[used + |o.payload|..] == rest
  {
    hide Leb128.Encode, Leb128.Size, Leb128.DecodeAtMost;
    var s := Encode(o, true) + rest;
    var len := Leb128.Encode(|o.payload|);
    assert s[1..] == len + (o.payload + rest);
    assert s[1 + |len|..1 + |len| + |o.payload|] == o.payload;
    assert s[1 + |len| + |o.payload|..] == rest;
    Leb128.RoundTripAtMost(|o.payload|, Leb128.MAX_GROUPS, o.payload + rest);
  }

  /** A sized unit of which bytes are missing is refused. */
  lemma TruncatedRefused(o: Obu, n: nat)
    requires Encodable(o) && n < |Encode(o, true)|
    ensures DecodeHeader(Encode(o, true)[..n]) == Err(EBADMSG)
  {
    hide Leb128.Encode, Leb128.Size, Leb128.DecodeAtMost;
    var len := Leb128.Encode(|o.payload|);
    if n > 0 {
      var s := Encode(o, true)[..n];
      assert s[0] == o.typ % 16 * 8 + 2;
      if n <= |len| {
        assert s[1..] == len[..n - 1];
        Leb128.CutShort(|o.payload|, Leb128.MAX_GROUPS, n - 1);
      } else {
        assert s[1..] == len + o.payload[..n - 1 - |len|];
        Leb128.RoundTripAtMost(|o.payload|, Leb128.MAX_GROUPS, o.payload[..n - 1 - |len|]);
      }
    }
  }

  function EncodeAll(os: seq<Obu>): (s: seq<Byte>) {
    if os == [] then [] else Encode(os[0], true) + EncodeAll(os[1..])
  }

  function Sendable(os: seq<Obu>): (r: seq<Obu>) {
    if os == [] then []
    else (if AllowedRtp(os[0].typ) then [os[0]] else []) + Sendable(os[1..])
  }

  /** Every list of units has a well-formed buffer, and scanning it finds exactly the sendable ones. */
  lemma {:induction false} ScanRoundTrip(os: seq<Obu>)
    requires forall o :: o in os ==> Encodable(o)
    ensures WellFormed(EncodeAll(os))
    ensures ScanBuffer(EncodeAll(os)).obus == Sendable(os)
  {
    hide Encode, DecodeHeader;
    if os == [] {
    } else {
      assert os[0] in os;
      HeaderRoundTrip(os[0], EncodeAll(os[1..]));
      ScanRoundTrip(os[1..]);
    }
  }

  /** A unit without size flag takes all the bytes there are: type and payload are read back. */
  lemma UnsizedRoundTrip(o: Obu)
    requires o.typ < 16
    ensures DecodeHeader(Encode(o, false)) == Ok(Header(o.typ, false, |o.payload|, 1))
    ensures Encode(o, false)[1..1 + |o.payload|] == o.payload
    ensures Encode(o, false) == Wire(o)
  {
    var s := Encode(o, false);
    assert s[0] == o.typ * 8;
    assert s[1..1 + |o.payload|] == o.payload;
  }

  /** The scan of one unit, and of what follows it. */
  lemma ScanStep(s: seq<Byte>, h: Header)
    requires |s| >= 2 && DecodeHeader(s) == Ok(h)
    ensures var next := ScanBuffer(s[h.used + h.size..]);
            && ScanBuffer(s).failure == next.failure
            && ScanBuffer(s).obus == Sendable([Obu(h.typ, s[h.used..h.used + h.size])]) + next.obus
  {
    hide DecodeHeader, Sendable, AllowedRtp, ScanBuffer;
    ScanUnfold(s, h);
    Prepend(Obu(h.typ, s[h.used..h.used + h.size]), ScanBuffer(s[h.used + h.size..]).obus);
  }

  lemma Prepend(o: Obu, more: seq<Obu>)
    ensures Sendable([o]) + more == if AllowedRtp(o.typ) then [o] + more else more
  {
    hide Sendable;
    SendableOne(o);
    assert [] + more == more;
  }

  lemma ScanUnfold(s: seq<Byte>, h: Header)
    requires |s| >= 2 && DecodeHeader(s) == Ok(h)
    ensures var next := ScanBuffer(s[h.used + h.size..]);
            && ScanBuffer(s).failure == next.failure
            && ScanBuffer(s).obus ==
               if AllowedRtp(h.typ) then [Obu(h.typ, s[h.used..h.used + h.size])] + next.obus else next.obus
  {
    hide DecodeHeader, AllowedRtp;
  }

  lemma SendableOne(o: Obu)
    ensures Sendable([o]) == if AllowedRtp(o.typ) then [o] else []
  {
    assert [o][1..] == [];
  }

  lemma SendableAppend(o: Obu, os: seq<Obu>, more: seq<Obu>)
    ensures Sendable([o] + os) + more == Sendable([o]) + (Sendable(os) + more)
  {
    assert ([o] + os)[1..] == os && [o][1..] == [];
  }

  /** A unit without size at the end of a buffer: found, unless it is a lone header byte. */
  lemma ScanUnsized(o: Obu)
    requires o.typ < 16
    ensures var r := ScanBuffer(Encode(o, false));
            r.failure.None? && r.obus == if o.payload != [] then Sendable([o]) else []
  {
    hide Encode, DecodeHeader;
    UnsizedRoundTrip(o);
    var s := Encode(o, false);
    if o.payload != [] {
      ScanStep(s, Header(o.typ, false, |o.payload|, 1));
      assert s[1 + |o.payload|..] == [];
      assert Sendable([o]) + [] == Sendable([o]);
    }
  }

  /**
   The last unit of a buffer may come without a size. It is then found like the others, unless its
   payload is empty: the scan looks at two bytes or more, so a lone header byte is never sent.
   */
  lemma {:induction false} ScanUnsizedLast(os: seq<Obu>, last: Obu)
    requires last.typ < 16 && forall o :: o in os ==> Encodable(o)
    ensures var r := ScanBuffer(EncodeAll(os) + Encode(last, false));
            && r.failure.None?
            && r.obus == Sendable(os) + (if last.payload != [] then Sendable([last]) else [])
  {
    hide Encode, DecodeHeader, ScanBuffer, Sendable;
    var end := Encode(last, false);
    var found := if last.payload != [] then Sendable([last]) else [];
    if os == [] {
      ScanUnsized(last);
      NoUnits(end, found);
    } else {
      assert os[0] in os && os == [os[0]] + os[1..];
      var tail := EncodeAll(os[1..]) + end;
      Assoc(Encode(os[0], true), EncodeAll(os[1..]), end);
      HeaderRoundTrip(os[0], tail);
      ScanStep(Encode(os[0], true) + tail, Header(os[0].typ, true, |os[0].payload|, 1 + Leb128.Size(|os[0].payload|)));
      assert Obu(os[0].typ, os[0].payload) == os[0];
      ScanUnsizedLast(os[1..], last);
      SendableAppend(os[0], os[1..], found);
    }
  }

  lemma NoUnits(s: seq<Byte>, found: seq<Obu>)
    ensures EncodeAll([]) + s == s && Sendable([]) + found == found
  {
  }

  ghost predicate HeaderFields(b: Byte, forbidden: bool, typ: nat, extension: bool, sized: bool) {
    && (b / 128 % 2 == 1 <==> forbidden) && b / 8 % 16 == typ
    && (b / 4 % 2 == 1 <==> extension) && (b / 2 % 2 == 1 <==> sized)
  }

  lemma HeaderByte(forbidden: bool, typ: nat, extension: bool, sized: bool, reserved: bool, b: int)
    requires typ < 16
    requires b == (if forbidden then 128 else 0) + 8 * typ + (if extension then 4 else 0)
                  + (if sized then 2 else 0) + (if reserved then 1 else 0)
    ensures 0 <= b < 256 && HeaderFields(b, forbidden, typ, extension, sized)
  {
    var f, x, s := if forbidden then 1 else 0, if extension then 1 else 0, if sized then 1 else 0;
    assert b / 2 == 64 * f + 4 * typ + 2 * x + s;
    assert b / 4 == 32 * f + 2 * typ + x;
    assert b / 8 == 16 * f + typ;
  }

  lemma HeaderCases(b: Byte, rest: seq<Byte>, forbidden: bool, typ: nat, extension: bool, sized: bool)
    requires HeaderFields(b, forbidden, typ, extension, sized)
    ensures var r := DecodeHeader([b] + rest);
            && (forbidden ==> r == Err(EBADMSG))
            && (!forbidden && extension ==> r == Err(ENOTSUP))
            && (!forbidden && !extension && !sized ==> r == Ok(Header(typ, false, |rest|, 1)))
            && (!forbidden && !extension && sized && r.Ok? ==> r.value.typ == typ && r.value.hasSize)
  {
  }

  /** The layout of the header byte: one forbidden bit, four of type, extension, size and reserved. */
  lemma HeaderBits(forbidden: bool, typ: nat, extension: bool, sized: bool, reserved: bool, rest: seq<Byte>)
    requires typ < 16
    ensures var b: int := (if forbidden then 128 else 0) + 8 * typ + (if extension then 4 else 0)
                          + (if sized then 2 else 0) + (if reserved then 1 else 0);
            && 0 <= b < 256
            && var r := DecodeHeader([b] + rest);
               && (forbidden ==> r == Err(EBADMSG))
               && (!forbidden && extension ==> r == Err(ENOTSUP))
               && (!forbidden && !extension && !sized ==> r == Ok(Header(typ, false, |rest|, 1)))
               && (!forbidden && !extension && sized && r.Ok? ==> r.value.typ == typ && r.value.hasSize)
  {
    hide DecodeHeader, HeaderFields;
    var b: int := (if forbidden then 128 else 0) + 8 * typ + (if extension then 4 else 0)
                  + (if sized then 2 else 0) + (if reserved then 1 else 0);
    HeaderByte(forbidden, typ, extension, sized, reserved, b);
    HeaderCases(b, rest, forbidden, typ, extension, sized);
  }

  /**
   What is sent: the sequence header, frames and frame headers, tile groups and metadata. Of the types
   that AV1 defines, the temporal delimiter, the tile list and padding are not.
   */
  lemma NotSent(typ: nat)
    ensures AllowedRtp(typ) <==> (1 <= typ <= 8 || typ == 15) && typ !in {2, 8, 15}
  {
  }
}
