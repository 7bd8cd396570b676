/**
 The AV1 packetizer of av1/pkt.c as it runs: a context that is updated fragment by fragment,
 proved to produce the packets of the Av1Layout module.
 */
module Av1Packetizer {
  import opened Bytes
  import opened Av1Layout
  import opened Av1Receiver
  import Leb128
  import Av1Obu

  function Wires(os: seq<Av1Obu.Obu>): (r: seq<seq<Byte>>)
    ensures |r| == |os|
    ensures forall i :: 0 <= i < |os| ==> r[i] == Av1Obu.Wire(os[i])
  {
    if os == [] then [] else [Av1Obu.Wire(os[0])] + Wires(os[1..])
  }

  /** The work of a scanned buffer once its first unit has been taken. */
  function Start(s: Av1Obu.Scan): (t: Todo)
    ensures t.Valid()
  {
    if s.obus == [] then Todo([], [], false, None)
    else Todo(Av1Obu.Wire(s.obus[0]), Wires(s.obus[1..]), s.trailing, s.failure)
  }

  /** The first unit of buf[pos..], as the scan sees it. */
  lemma NextUnit(buf: seq<Byte>, pos: nat)
    requires pos + 2 <= |buf|
    ensures match Av1Obu.DecodeHeader(buf[pos..])
            case Err(e) => Av1Obu.ScanBuffer(buf[pos..]) == Av1Obu.Scan([], true, Some(e))
            case Ok(h) =>
              var end := pos + h.used + h.size;
              && pos < end <= |buf| && h.typ < 16
              && var next := Av1Obu.ScanBuffer(buf[end..]);
                 Av1Obu.ScanBuffer(buf[pos..]) ==
                   if Av1Obu.AllowedRtp(h.typ)
                   then next.(obus := [Av1Obu.Obu(h.typ, buf[pos + h.used..end])] + next.obus)
                   else if next.obus == [] then next.(trailing := true) else next
  {
    hide Av1Obu.DecodeHeader;
    var s := buf[pos..];
    if Av1Obu.DecodeHeader(s).Ok? {
      var h := Av1Obu.DecodeHeader(s).value;
      assert s[h.used..h.used + h.size] == buf[pos + h.used..pos + h.used + h.size];
      assert s[h.used + h.size..] == buf[pos + h.used + h.size..];
    }
  }

  /** Where a unit's payload lies in the buffer, and its type. */
  datatype Place = Place(typ: nat, start: nat, end: nat)

  /** The searching loop of update_curr_obu; no place at the end of the buffer. */
  method FindAllowed(buf: seq<Byte>, from: nat) returns (r: Result<Option<Place>>)
    requires from <= |buf|
    ensures var s := Av1Obu.ScanBuffer(buf[from..]);
            match r
            case Err(e) => s.obus == [] && s.failure == Some(e)
            case Ok(None) => s.obus == [] && s.failure == None
            case Ok(Some(u)) =>
              && u.start <= u.end <= |buf| && u.typ < 16
              && var next := Av1Obu.ScanBuffer(buf[u.end..]);
                 s == next.(obus := [Av1Obu.Obu(u.typ, buf[u.start..u.end])] + next.obus)
  {
    hide Av1Obu.ScanBuffer, Av1Obu.DecodeHeader;
    var pos := from;
    ghost var s0 := Av1Obu.ScanBuffer(buf[from..]);
    ghost var s := s0;
    while |buf| - pos >= 2
      invariant pos <= |buf| && s == Av1Obu.ScanBuffer(buf[pos..])
      invariant s.obus == s0.obus && s.failure == s0.failure && (s.obus != [] ==> s.trailing == s0.trailing)
      decreases |buf| - pos
    {
      NextUnit(buf, pos);
      var d := Av1Obu.DecodeHeader(buf[pos..]);
      if d.Err? {
        return Err(d.error);
      }
      var h := d.value;
      var start := pos + h.used;
      pos := start + h.size;
      if Av1Obu.AllowedRtp(h.typ) {
        return Ok(Some(Place(h.typ, start, pos)));
      }
      s := Av1Obu.ScanBuffer(buf[pos..]);
    }
    ScanEnds(buf[pos..]);
    return Ok(None);
  }

  lemma ScanEnds(s: seq<Byte>)
    requires |s| < 2
    ensures Av1Obu.ScanBuffer(s) == Av1Obu.Scan([], |s| > 0, None)
  {
  }

  ghost predicate Consistent(obu: seq<Byte>, obuPos: nat, remaining: nat) {
    && obuPos <= |obu|
    && (remaining == 1 + |obu| ==> obuPos == 0)
    && (remaining != 1 + |obu| ==> remaining == 0 || remaining == |obu| - obuPos)
  }

  /** The bytes of the current unit that are still to be written, header byte included. */
  ghost function Unsent(typ: nat, obu: seq<Byte>, obuPos: nat, remaining: nat): (s: seq<Byte>)
    requires Consistent(obu, obuPos, remaining)
    ensures |s| == remaining
  {
    if remaining == 0 then []
    else if remaining == 1 + |obu| then [typ % 16 * 8] + obu
    else obu[obuPos..]
  }

  /** Copying n payload bytes, after the header byte if that is still due. */
  lemma UnsentSplit(typ: nat, obu: seq<Byte>, obuPos: nat, remaining: nat, len: nat)
    requires Consistent(obu, obuPos, remaining) && 1 <= len <= remaining
    ensures var whole := remaining == 1 + |obu|;
            var n := if whole then len - 1 else len;
            && obuPos + n <= |obu|
            && Consistent(obu, obuPos + n, remaining - len)
            && Unsent(typ, obu, obuPos, remaining)[..len]
               == (if whole then [typ % 16 * 8] else []) + obu[obuPos..obuPos + n]
            && Unsent(typ, obu, obuPos + n, remaining - len) == Unsent(typ, obu, obuPos, remaining)[len..]
  {
  }

  lemma ElementIs(prefixed: bool, data: seq<Byte>)
    ensures ElementBytes(Element(prefixed, data)) == (if prefixed then Leb128.Encode(|data|) else []) + data
  {
  }

  lemma Joined4(p: seq<Byte>, prefix: seq<Byte>, header: seq<Byte>, body: seq<Byte>)
    ensures p + prefix + header + body == p + (prefix + (header + body))
    ensures p + [] == p && p + prefix + [] == p + prefix
  {
  }

  /** The bytes of that copy, and how many of them are payload. */
  method AppendFragment(pkt: seq<Byte>, typ: nat, obu: seq<Byte>, obuPos: nat, remaining: nat, prefixed: bool, len: nat)
    returns (out: seq<Byte>, n: nat)
    requires Consistent(obu, obuPos, remaining) && 1 <= len <= remaining
    ensures Consistent(obu, obuPos + n, remaining - len)
    ensures out == pkt + ElementBytes(Element(prefixed, Unsent(typ, obu, obuPos, remaining)[..len]))
    ensures Unsent(typ, obu, obuPos + n, remaining - len) == Unsent(typ, obu, obuPos, remaining)[len..]
  {
    hide Unsent, Leb128.Encode, ElementBytes;
    UnsentSplit(typ, obu, obuPos, remaining, len);
    ElementIs(prefixed, Unsent(typ, obu, obuPos, remaining)[..len]);
    ghost var prefix := if prefixed then Leb128.Encode(len) else [];
    ghost var header := if remaining == 1 + |obu| then [typ % 16 * 8] else [];
    out, n := pkt, len;
    if prefixed {
      out := Leb128.EncodeTo(out, len);
    }
    if remaining == 1 + |obu| {
      out := out + [typ % 16 * 8];
      n := n - 1;
    }
    Joined4(pkt, prefix, header, obu[obuPos..obuPos + n]);
    out := out + obu[obuPos..obuPos + n];
  }

  /** struct av1_context. The packet under way is `pkt`; `obu` is the payload of the current unit. */
  class Context {
    const buf: seq<Byte>
    const maxlen: nat
    var pos: nat
    var pkt: seq<Byte>
    var obu: seq<Byte>
    var obuPos: nat
    var typ: nat
    var remaining: nat

    constructor (buf: seq<Byte>, maxlen: nat)
      ensures Valid() && this.buf == buf && this.maxlen == maxlen
      ensures pos == 0 && pkt == [] && remaining == 0
    {
      this.buf, this.maxlen := buf, maxlen;
      pos, pkt, obu, obuPos, typ, remaining := 0, [], [], 0, 0, 0;
    }

    ghost predicate Valid()
      reads this
    {
      pos <= |buf| && typ < 16 && Consistent(obu, obuPos, remaining)
    }

    ghost function Current(): (s: seq<Byte>)
      requires Valid()
      reads this
      ensures |s| == remaining
    {
      Unsent(typ, obu, obuPos, remaining)
    }

    ghost function Pending(): (t: Todo)
      requires Valid()
      reads this
    {
      var s := Av1Obu.ScanBuffer(buf[pos..]);
      Todo(Current(), Wires(s.obus), s.trailing, s.failure)
    }

    /** update_curr_obu: move to the next unit that may be sent, skipping the others. */
    method UpdateCurrObu() returns (err: Option<Error>)
      requires Valid() && remaining == 0
      modifies this`pos, this`obu, this`obuPos, this`typ, this`remaining
      ensures Valid()
      ensures var s := Av1Obu.ScanBuffer(old(buf[pos..]));
              && err == (if s.obus == [] then s.failure else None)
              && (err.None? ==> Pending() == Start(s))
    {
      var r := FindAllowed(buf, pos);
      match r
      case Err(e) => return Some(e);
      case Ok(None) =>
        pos, obuPos := |buf|, |obu|;
        return None;
      case Ok(Some(u)) =>
        obu, typ := buf[u.start..u.end], u.typ;
        obuPos, remaining := 0, 1 + (u.end - u.start);
        pos := u.end;
        return None;
    }

    /** copy_fragment: append the next len bytes of the current unit, with their length if asked. */
    method CopyFragment(prefixed: bool, len: nat)
      requires Valid() && 1 <= len <= remaining
      modifies this`pkt, this`obuPos, this`remaining
      ensures Valid()
      ensures pkt == old(pkt) + ElementBytes(Element(prefixed, old(Current())[..len]))
      ensures Current() == old(Current())[len..]
    {
      hide Unsent, Consistent, ElementBytes;
      var out, n := AppendFragment(pkt, typ, obu, obuPos, remaining, prefixed, len);
      pkt, obuPos, remaining := out, obuPos + n, remaining - len;
    }

    /** calc_fragment_len_with_prefix: reserve a byte for the prefix, and retry when it takes more. */
    method CalcFragmentLenWithPrefix(room: nat) returns (len: nat, prefixLen: nat)
      requires remaining > 0 && room >= 1
      ensures len == LenWithPrefix(remaining, room) && prefixLen == Leb128.Size(len)
      ensures len <= remaining && len + prefixLen <= room && (room >= 2 ==> len >= 1)
    {
      hide Leb128.Size;
      PrefixFits(remaining, room);
      len := if remaining <= room - 1 then remaining else room - 1;
      prefixLen := Leb128.CalcSize(len);
      if len + prefixLen > room {
        Leb128.SizeAtMostValue(len);
        len := room - prefixLen;
        prefixLen := Leb128.CalcSize(len);
      }
    }

    /** calc_fragment_len: a packet that is overfull is an error, one that is full gets no fragment. */
    method CalcFragmentLen(count: nat) returns (err: Option<Error>, f: Fragment)
      requires Valid() && remaining > 0
      ensures |pkt| > maxlen ==> err == Some(ERANGE)
      ensures |pkt| <= maxlen ==> err == None && f == NextFragment(remaining, maxlen - |pkt|, count, pos == |buf|)
      ensures |pkt| <= maxlen && f.len > 0 ==> f.len <= remaining && |pkt| + FragmentSize(f) <= maxlen
    {
      hide Leb128.Size, LenWithPrefix;
      var none := Fragment(false, 0);
      var last := pos == |buf|;
      if |pkt| > maxlen {
        return Some(ERANGE), none;
      }
      var room := maxlen - |pkt|;
      FragmentFits(remaining, room, count, last);
      if room < 1 {
        return None, none;
      }
      var len, prefixLen, include_prefix := 0, 0, false;
      if count > MAX_OBUS {
        include_prefix := true;
      } else if !last && room > remaining {
        var next := if count > 2 then 2 else 1;
        len, prefixLen := CalcFragmentLenWithPrefix(room);
        include_prefix := len + prefixLen + next <= room;
      }
      if include_prefix {
        if room < 2 {
          return None, none;
        }
        if len == 0 {
          len, prefixLen := CalcFragmentLenWithPrefix(room);
        }
      } else {
        len := if remaining <= room then remaining else room;
      }
      return None, Fragment(include_prefix, len);
    }

    lemma PendingFacts()
      requires Valid()
      ensures remaining > 0 ==> Pending().Valid()
      ensures Pending().Last() == (pos == |buf|)
    {
      Av1Obu.NothingLeft(buf[pos..]);
    }
  }

  /** The packet so far (elements es, the last one ending with y) followed by what r adds. */
  ghost function After(es: seq<Element>, y: bool, r: Filled): Filled {
    r.(elems := es + r.elems, open := if r.elems == [] then y else r.open)
  }

  /** One turn of the copying loop, seen from the specification. */
  lemma FillTurn(t: Todo, room: nat, es: seq<Element>, y: bool, f: Fragment)
    requires t.Valid() && t.cur != []
    requires f == NextFragment(|t.cur|, room, |es| + 1, t.Last())
    ensures f.len <= |t.cur|
    ensures f.len == 0 ==> After(es, y, Fill(t, room, |es|)) == Filled(es, t, f.prefixed, y, false)
    ensures f.len > 0 ==>
              var e := Element(f.prefixed, t.cur[..f.len]);
              var es' := es + [e];
              var y' := f.len < |t.cur|;
              && |ElementBytes(e)| == FragmentSize(f) <= room
              && if !y' && t.rest == [] && t.failure.Some? then Fill(t, room, |es|).failed
                 else After(es, y, Fill(t, room, |es|)) ==
                        if f.prefixed then After(es', y', Fill(t.Advance(f.len), room - FragmentSize(f), |es'|))
                        else Filled(es', t.Advance(f.len), false, y', false)
  {
    hide NextFragment, Fill, FillSplits, FragmentSize, Straddles, ElementBytes;
    FillStep(t, room, |es|, f);
    ElementSize(f, t.cur);
    if f.len > 0 {
      var e := Element(f.prefixed, t.cur[..f.len]);
      if f.prefixed {
        Assoc(es, [e], Fill(t.Advance(f.len), room - FragmentSize(f), |es| + 1).elems);
      }
    }
  }

  /** The body of that loop: choose a fragment, copy it, and move on when its unit is finished. */
  method CopyOne(c: Context, count: nat) returns (err: Option<Error>, f: Fragment, y: bool)
    requires c.Valid() && c.Pending().Valid() && c.remaining > 0 && |c.pkt| <= c.maxlen
    modifies c
    ensures c.Valid()
    ensures var t := old(c.Pending());
            && f == NextFragment(|t.cur|, c.maxlen - |old(c.pkt)|, count + 1, t.Last())
            && f.len <= |t.cur| && y == (f.len < |t.cur|)
            && (f.len == 0 ==> err.None? && c.pkt == old(c.pkt) && c.Pending() == t)
            && (f.len > 0 ==>
                  && c.pkt == old(c.pkt) + ElementBytes(Element(f.prefixed, t.cur[..f.len]))
                  && err == (if f.len == |t.cur| && t.rest == [] then t.failure else None)
                  && (err.None? ==> c.Pending() == t.Advance(f.len)))
  {
    hide NextFragment, Av1Obu.ScanBuffer;
    c.PendingFacts();
    y := true;
    err, f := c.CalcFragmentLen(count + 1);
    FragmentFits(c.remaining, c.maxlen - |c.pkt|, count + 1, c.pos == |c.buf|);
    if f.len == 0 {
      return;
    }
    c.CopyFragment(f.prefixed, f.len);
    if c.remaining == 0 {
      y := false;
      err := c.UpdateCurrObu();
    }
  }

  /** copy_obus_to_packet: fill one packet, and its W and Y. */
  method CopyObusToPacket(c: Context) returns (err: Option<Error>, w: nat, y: bool)
    requires c.Valid() && c.Pending().Valid() && c.pkt == [] && c.remaining > 0 && c.maxlen >= 1
    modifies c
    ensures c.Valid()
    ensures var r := Fill(old(c.Pending()), c.maxlen, 0);
            && r.failed == err.Some?
            && (r.failed ==> err == old(c.Pending()).failure)
            && (!r.failed ==> c.pkt == Payload(r.elems) && c.Pending() == r.todo && w == WField(r) && y == r.open)
  {
    hide Fill, NextFragment, Av1Obu.ScanBuffer, FragmentSize, ElementBytes, Wires, Payload, Datas;
    NoPayload();
    ghost var t0 := c.Pending();
    ghost var r0 := Fill(t0, c.maxlen, 0);
    ghost var es: seq<Element> := [];
    ghost var t := t0;
    var count, prefix := 0, true;
    err, w, y := None, 0, false;
    FillOpen(t0, c.maxlen, 0);
    assert [] + r0.elems == r0.elems;
    while c.remaining > 0 && prefix
      invariant c.Valid() && c.Pending() == t && t.Valid() && t.failure == t0.failure
      invariant count == |es| && c.pkt == Payload(es) && |c.pkt| <= c.maxlen
      invariant err.None?
      invariant r0 == if prefix then After(es, y, Fill(t, c.maxlen - |c.pkt|, count)) else Filled(es, t, false, y, false)
      decreases |t.rest|, |t.cur|
    {
      ghost var room := c.maxlen - |c.pkt|;
      var f, more;
      err, f, more := CopyOne(c, count);
      FillTurn(t, room, es, y, f);
      prefix := f.prefixed;
      if f.len == 0 {
        break;
      }
      if err.Some? {
        return;
      }
      ghost var e := Element(f.prefixed, t.cur[..f.len]);
      PayloadAppend(es, e);
      count := count + 1;
      y := more;
      t, es := t.Advance(f.len), es + [e];
    }
    if t.cur == [] {
      FillNothing(t, c.maxlen - |c.pkt|, count);
    }
    assert es + [] == es;
    w := if count > MAX_OBUS || prefix then 0 else count;
  }

  lemma NoPayload()
    ensures Payload([]) == []
  {
  }

  lemma {:induction false} PayloadAppend(es: seq<Element>, e: Element)
    ensures Payload(es + [e]) == Payload(es) + ElementBytes(e)
  {
    if es == [] {
      assert es + [e] == [e] && [e][1..] == [];
    } else {
      assert (es + [e])[1..] == es[1..] + [e];
      PayloadAppend(es[1..], e);
    }
  }

  /** The packets of a buffer, as laid out by the specification. */
  ghost function Expected(buf: seq<Byte>, maxlen: nat, marker: bool, newp: bool): (ps: seq<Packet>)
    requires maxlen >= 2
  {
    Run(Start(Av1Obu.ScanBuffer(buf)), maxlen - 1, marker, false, newp).packets
  }

  /** The packets of a run as bytes. */
  ghost function RawRun(t: Todo, cap: nat, marker: bool, z: bool, n: bool): (ps: seq<RawPacket>)
    requires t.Valid() && cap >= 1
  {
    RunWFields(t, cap, marker, z, n);
    RawAll(Run(t, cap, marker, z, n).packets)
  }

  /** The packet handler: what its k-th call returns. */
  type Handler = nat -> Option<Error>

  /** Of n packets the handler is given all, or those up to the first that it refuses. */
  function Given(pkth: Handler, k: nat, n: nat): (m: nat)
    requires k <= n
    ensures k <= m <= n
    decreases n - k
  {
    if k == n then n else if pkth(k).Some? then k + 1 else Given(pkth, k + 1, n)
  }

  /** What av1_packetize returns: the error of the refused packet, or that of the scan. */
  function Verdict(pkth: Handler, n: nat, failure: Option<Error>): (e: Option<Error>) {
    var m := Given(pkth, 0, n);
    if m > 0 && pkth(m - 1).Some? then pkth(m - 1) else failure
  }

  lemma {:induction false} GivenAll(pkth: Handler, k: nat, n: nat)
    requires k <= n && forall i :: k <= i < n ==> pkth(i).None?
    ensures Given(pkth, k, n) == n
    decreases n - k
  {
    if k < n {
      GivenAll(pkth, k + 1, n);
    }
  }

  /** Calls that have gone well so far. */
  lemma {:induction false} GivenFrom(pkth: Handler, k: nat, n: nat, i: nat)
    requires i <= k <= n && forall j :: i <= j < k ==> pkth(j).None?
    ensures Given(pkth, i, n) == Given(pkth, k, n)
    decreases k - i
  {
    if i < k {
      GivenFrom(pkth, k, n, i + 1);
    }
  }

  lemma Refused(pkth: Handler, k: nat, n: nat, failure: Option<Error>)
    requires k < n && (forall j :: 0 <= j < k ==> pkth(j).None?) && pkth(k).Some?
    ensures Given(pkth, 0, n) == k + 1 && Verdict(pkth, n, failure) == pkth(k)
  {
    GivenFrom(pkth, k, n, 0);
  }

  lemma NoneRefused(pkth: Handler, n: nat, failure: Option<Error>)
    requires forall j :: 0 <= j < n ==> pkth(j).None?
    ensures Given(pkth, 0, n) == n && Verdict(pkth, n, failure) == failure
  {
    GivenAll(pkth, 0, n);
  }

  /**
   av1_packetize. The packets returned are those given to the packet handler; `newp` is the
   new-stream flag, cleared by the first packet.
   */
  method Packetize(newp: bool, marker: bool, buf: seq<Byte>, maxlen: nat, pkth: Handler)
    returns (err: Option<Error>, packets: seq<RawPacket>, newp': bool)
    ensures buf == [] || maxlen < 2 ==> err == Some(EINVAL) && packets == [] && newp' == newp
    ensures buf != [] && maxlen >= 2 ==>
              && (forall p :: p in Expected(buf, maxlen, marker, newp) ==> p.w <= 3)
              && var all := RawAll(Expected(buf, maxlen, marker, newp));
                 && packets == all[..Given(pkth, 0, |all|)]
                 && err == Verdict(pkth, |all|, Av1Obu.ScanBuffer(buf).failure)
                 && newp' == (newp && packets == [])
  {
    hide Av1Obu.ScanBuffer, Run, RawAll, Wires, Verdict, Given;
    packets, newp' := [], newp;
    if |buf| == 0 || maxlen < 2 {
      return Some(EINVAL), packets, newp';
    }
    var c := new Context(buf, maxlen - 1);
    assert buf[0..] == buf;
    err := c.UpdateCurrObu();
    ghost var t := Start(Av1Obu.ScanBuffer(buf));
    ghost var failure := Av1Obu.ScanBuffer(buf).failure;
    RunWFields(t, maxlen - 1, marker, false, newp);
    assert RawAll(Expected(buf, maxlen, marker, newp)) == RawRun(t, maxlen - 1, marker, false, newp);
    if err.Some? {
      NothingSent(t, maxlen - 1, marker, newp);
      NoneRefused(pkth, 0, failure);
      return;
    }
    err, packets, newp' := SendAll(c, marker, newp, pkth, failure);
  }

  lemma NothingSent(t: Todo, cap: nat, marker: bool, n: bool)
    requires t.Valid() && cap >= 1 && t.cur == []
    ensures RawRun(t, cap, marker, false, n) == []
  {
  }

  /** The loop of av1_packetize. */
  method SendAll(c: Context, marker: bool, newp: bool, pkth: Handler, ghost failure: Option<Error>)
    returns (err: Option<Error>, packets: seq<RawPacket>, newp': bool)
    requires c.Valid() && c.Pending().Valid() && c.pkt == [] && c.maxlen >= 1
    requires failure == if c.remaining > 0 then c.Pending().failure else None
    modifies c
    ensures var all := RawRun(old(c.Pending()), c.maxlen, marker, false, newp);
            && packets == all[..Given(pkth, 0, |all|)]
            && err == Verdict(pkth, |all|, failure)
            && newp' == (newp && packets == [])
  {
    hide Av1Obu.ScanBuffer, Run, RawRun, Verdict, Given, Fill, WField, Payload, EncodeAggr, Wires;
    ghost var t := c.Pending();
    ghost var all := RawRun(t, c.maxlen, marker, false, newp);
    var continued := false;
    packets, newp', err := [], newp, None;
    assert [] + all == all;
    while c.remaining > 0
      invariant c.Valid() && c.Pending() == t && t.Valid() && c.pkt == []
      invariant all == packets + RawRun(t, c.maxlen, marker, continued, newp')
      invariant failure == if c.remaining > 0 then t.failure else None
      invariant (forall k :: 0 <= k < |packets| ==> pkth(k).None?) && err.None?
      invariant newp' == (newp && packets == [])
      decreases |t.rest|, |t.cur|
    {
      RawTurn(t, c.maxlen, marker, continued, newp');
      var y, p;
      err, p, y := NextPacket(c, marker, continued, newp');
      if err.Some? {
        assert packets + [] == packets && all[..|all|] == all;
        NoneRefused(pkth, |all|, failure);
        return;
      }
      ghost var t' := c.Pending();
      Assoc(packets, [p], RawRun(t', c.maxlen, marker, y, false));
      err := pkth(|packets|);
      packets, newp' := packets + [p], false;
      if err.Some? {
        assert all[..|packets|] == packets;
        Refused(pkth, |packets| - 1, |all|, failure);
        return;
      }
      continued, t := y, t';
    }
    RawTurn(t, c.maxlen, marker, continued, newp');
    assert packets + [] == packets && all[..|all|] == all;
    NoneRefused(pkth, |all|, failure);
  }

  /** One turn of it up to the call: fill a packet and write its aggregation header. */
  method NextPacket(c: Context, marker: bool, continued: bool, newp: bool)
    returns (err: Option<Error>, p: RawPacket, y: bool)
    requires c.Valid() && c.Pending().Valid() && c.pkt == [] && c.remaining > 0 && c.maxlen >= 1
    modifies c
    ensures c.Valid() && c.pkt == []
    ensures var t := old(c.Pending());
            var r := Fill(t, c.maxlen, 0);
            && r.failed == err.Some?
            && (r.failed ==> err == t.failure)
            && (!r.failed ==>
                  && c.Pending() == r.todo && y == r.open && WField(r) <= 3
                  && p == RawPacket(marker && r.todo.cur == [], EncodeAggr(continued, y, WField(r), newp), Payload(r.elems)))
  {
    hide Av1Obu.ScanBuffer, Fill, Wires, Payload;
    var w;
    err, w, y := CopyObusToPacket(c);
    p := RawPacket(false, 0, []);
    if err.None? {
      p := RawPacket(marker && c.remaining == 0, EncodeAggr(continued, y, w, newp), c.pkt);
    }
    c.pkt := [];
  }

  /** One turn of the outer loop, seen from the specification. */
  lemma RawTurn(t: Todo, cap: nat, marker: bool, z: bool, n: bool)
    requires t.Valid() && cap >= 1
    ensures t.cur == [] ==> RawRun(t, cap, marker, z, n) == []
    ensures t.cur != [] ==>
              var r := Fill(t, cap, 0);
              if r.failed then RawRun(t, cap, marker, z, n) == [] && t.failure.Some?
              else
                && r.todo.Valid() && Less(r.todo, t) && WField(r) <= 3
                && (if r.todo.cur == [] then t.failure.None? else r.todo.failure == t.failure)
                && var p := RawPacket(marker && r.todo.cur == [], EncodeAggr(z, r.open, WField(r), n), Payload(r.elems));
                   RawRun(t, cap, marker, z, n) == [p] + RawRun(r.todo, cap, marker, r.open, false)
  {
    hide Fill, WField, Payload;
    if t.cur != [] {
      FillProgress(t, cap, 0);
      FillEnds(t, cap, 0);
      var r := Fill(t, cap, 0);
      if !r.failed {
        var o := Run(r.todo, cap, marker, r.open, false);
        var p := Packet(marker && r.todo.cur == [], z, r.open, WField(r), n, r.elems);
        FilledPacketParses(t, cap);
        RunWFields(r.todo, cap, marker, r.open, false);
        RawAllCons(p, o.packets);
        assert Run(t, cap, marker, z, n).packets == [p] + o.packets;
      }
    }
  }

  // ---------------------------------------------------------------- what a receiver gets

  const NOTHING := Received([], None)

  /** Number of in-packet cuts of a buffer: it depends on the unit sizes and maxlen only. */
  ghost function Cuts(buf: seq<Byte>, maxlen: nat): (n: nat)
    requires maxlen >= 2
  {
    Splits(Start(Av1Obu.ScanBuffer(buf)), maxlen - 1)
  }

  lemma CutsBySize(a: seq<Byte>, b: seq<Byte>, maxlen: nat)
    requires maxlen >= 2
    requires var s, r := Av1Obu.ScanBuffer(a), Av1Obu.ScanBuffer(b);
             && |s.obus| == |r.obus| && s.trailing == r.trailing && s.failure == r.failure
             && forall i :: 0 <= i < |s.obus| ==> |s.obus[i].payload| == |r.obus[i].payload|
    ensures Cuts(a, maxlen) == Cuts(b, maxlen)
  {
    hide Av1Obu.ScanBuffer, Splits;
    SplitsAlike(Start(Av1Obu.ScanBuffer(a)), Start(Av1Obu.ScanBuffer(b)), maxlen - 1);
  }

  /**
   Packetize, then receive: every packet parses, nothing stays open, one extra unit appears per
   cut, and the receiver has exactly the sendable units of the buffer if and only if there is none.
   */
  lemma Reassembly(buf: seq<Byte>, maxlen: nat, marker: bool, newp: bool)
    requires Av1Obu.WellFormed(buf) && maxlen >= 2
    ensures forall p :: p in Expected(buf, maxlen, marker, newp) ==> p.w <= 3
    ensures var r := Receive(NOTHING, RawAll(Expected(buf, maxlen, marker, newp)));
            var units := Wires(Av1Obu.ScanBuffer(buf).obus);
            && r.Some? && r.value.open.None?
            && |r.value.units| == |units| + Cuts(buf, maxlen)
            && (r.value.units == units <==> Cuts(buf, maxlen) == 0)
  {
    hide Run, Splits, Receive;
    var s := Av1Obu.ScanBuffer(buf);
    var t := Start(s);
    RunReceived(t, maxlen - 1, marker, newp, NOTHING);
    if s.obus != [] {
      assert Units(t) == Wires(s.obus);
    }
    assert Glue(None, Units(t)) == Wires(s.obus);
    assert [] + Wires(s.obus) == Wires(s.obus);
  }

  /** The header bits and sizes of the packets of a well-formed buffer, and their bytes. */
  lemma PacketsOf(buf: seq<Byte>, maxlen: nat, marker: bool, newp: bool)
    requires maxlen >= 2
    ensures var ps := Expected(buf, maxlen, marker, newp);
            var all := Flatten(Wires(Av1Obu.ScanBuffer(buf).obus));
            && Flatten(Datas(AllElements(ps))) <= all
            && (Av1Obu.WellFormed(buf) ==>
                  && WellChained(ps, maxlen - 1, marker, false, newp)
                  && Flatten(Datas(AllElements(ps))) == all)
  {
    hide Run, WellChained, Av1Obu.ScanBuffer, Wires, Flatten, Datas, AllElements, Start;
    var s := Av1Obu.ScanBuffer(buf);
    var t := Start(s);
    StartBytes(s);
    RunConserves(t, maxlen - 1, marker, false, newp);
    if Av1Obu.WellFormed(buf) {
      RunChained(t, maxlen - 1, marker, false, newp);
    }
  }

  lemma StartBytes(s: Av1Obu.Scan)
    ensures Start(s).cur + Flatten(Start(s).rest) == Flatten(Wires(s.obus))
    ensures s.failure.None? ==> Start(s).failure.None?
  {
    hide Flatten;
    FlattenParts(Wires(s.obus));
    if s.obus != [] {
      assert Wires(s.obus)[1..] == Wires(s.obus[1..]);
    }
  }

  lemma FlattenParts(ss: seq<seq<Byte>>)
    ensures Flatten(ss) == if ss == [] then [] else ss[0] + Flatten(ss[1..])
    ensures [] + Flatten<Byte>([]) == []
  {
  }

  /** From a list of units, through the buffer and the packets, back to the list. */
  lemma EndToEnd(os: seq<Av1Obu.Obu>, maxlen: nat, marker: bool, newp: bool)
    requires maxlen >= 2 && forall o :: o in os ==> Av1Obu.Encodable(o)
    ensures var buf := Av1Obu.EncodeAll(os);
            && Av1Obu.WellFormed(buf)
            && (forall p :: p in Expected(buf, maxlen, marker, newp) ==> p.w <= 3)
            && (Receive(NOTHING, RawAll(Expected(buf, maxlen, marker, newp)))
                  == Some(Received(Wires(Av1Obu.Sendable(os)), None))
                <==> Cuts(buf, maxlen) == 0)
  {
    Av1Obu.ScanRoundTrip(os);
    Reassembly(Av1Obu.EncodeAll(os), maxlen, marker, newp);
  }

  // ---------------------------------------------------------------- when there are no cuts

  ghost predicate Short(t: Todo) {
    |t.cur| < 128 && forall i :: 0 <= i < |t.rest| ==> |t.rest[i]| < 128
  }

  lemma AdvanceShort(t: Todo, n: nat)
    requires t.Valid() && Short(t) && n <= |t.cur|
    ensures Short(t.Advance(n))
  {
  }

  lemma NoStraddle(cur: nat, room: nat, index: nat, last: bool)
    requires cur >= 1 && (room <= 128 || cur < 128)
    ensures !Straddles(cur, room, index, last)
  {
    if cur < 128 {
      assert Leb128.Size(cur) == 1;
    }
  }

  lemma {:induction false} FillNeverCuts(t: Todo, room: nat, count: nat)
    requires t.Valid() && (room <= 128 || Short(t))
    ensures FillSplits(t, room, count) == 0
    ensures Short(t) ==> Short(Fill(t, room, count).todo)
    decreases |t.rest|, |t.cur|
  {
    hide NextFragment, Fill, FillSplits, FragmentSize, Straddles;
    if t.cur == [] {
      FillNothing(t, room, count);
    } else {
      var f := NextFragment(|t.cur|, room, count + 1, t.Last());
      FillStep(t, room, count, f);
      NoStraddle(|t.cur|, room, count + 1, t.Last());
      if f.len > 0 {
        if Short(t) {
          AdvanceShort(t, f.len);
        }
        if f.prefixed {
          FillNeverCuts(t.Advance(f.len), room - FragmentSize(f), count + 1);
        }
      }
    }
  }

  /** Packets of at most 129 bytes, or units of at most 127, never run into the faulty branch. */
  lemma {:induction false} NeverCuts(t: Todo, cap: nat)
    requires t.Valid() && 1 <= cap && (cap <= 128 || Short(t))
    ensures Splits(t, cap) == 0
    decreases |t.rest|, |t.cur|
  {
    if t.cur != [] {
      FillProgress(t, cap, 0);
      FillNeverCuts(t, cap, 0);
      NeverCuts(Fill(t, cap, 0).todo, cap);
    }
  }

  /** The corner that breaks reassembly: a 128-byte unit that has 129 bytes of room. */
  lemma CutWitness(payload: seq<Byte>, marker: bool, newp: bool)
    requires |payload| == 127
    ensures var buf := Av1Obu.EncodeAll([Av1Obu.Obu(6, payload), Av1Obu.Obu(6, [])]);
            && Av1Obu.WellFormed(buf)
            && Cuts(buf, 130) >= 1
            && (forall p :: p in Expected(buf, 130, marker, newp) ==> p.w <= 3)
            && Receive(NOTHING, RawAll(Expected(buf, 130, marker, newp)))
               != Some(Received(Wires(Av1Obu.ScanBuffer(buf).obus), None))
  {
    var os := [Av1Obu.Obu(6, payload), Av1Obu.Obu(6, [])];
    var buf := Av1Obu.EncodeAll(os);
    BigEnough();
    Av1Obu.ScanRoundTrip(os);
    SendableTwo(os);
    var t := Start(Av1Obu.ScanBuffer(buf));
    FirstCut(t);
    Reassembly(buf, 130, marker, newp);
  }

  lemma FirstCut(t: Todo)
    requires t.Valid() && |t.cur| == 128 && t.rest != []
    ensures Splits(t, 129) >= 1
  {
    assert Leb128.Size(128) == 2 && Leb128.Size(127) == 1;
    assert Straddles(128, 129, 1, false);
    PartialFragment(128, 129, 1, false);
    assert FillSplits(t, 129, 0) >= 1;
  }

  lemma BigEnough()
    ensures 127 < Leb128.Pow128(Leb128.MAX_GROUPS)
  {
    assert Leb128.Pow128(1) == 128;
    PowGrows(1, Leb128.MAX_GROUPS);
  }

  lemma {:induction false} PowGrows(i: nat, j: nat)
    requires i <= j
    ensures Leb128.Pow128(i) <= Leb128.Pow128(j)
  {
    if i < j {
      PowGrows(i, j - 1);
    }
  }

  lemma SendableTwo(os: seq<Av1Obu.Obu>)
    requires |os| == 2 && os[0].typ == 6 && os[1].typ == 6
    ensures Av1Obu.Sendable(os) == os
  {
    assert os[1..][1..] == [];
    assert Av1Obu.Sendable(os[1..]) == [os[1]];
  }
}
