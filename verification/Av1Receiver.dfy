/**
 An independent receiver for AV1 RTP packets, after sections 4.4 and 4.5 of the AV1 RTP payload
 specification, and what it gets out of the packets of the Av1Layout module.
 */
module Av1Receiver {
  import opened Bytes
  import opened Av1Layout
  import Leb128

  // ---------------------------------------------------------------- the receiver

  /** A packet as the packet handler gets it: marker bit, aggregation header byte, payload. */
  datatype RawPacket = RawPacket(marker: bool, hdr: Byte, payload: seq<Byte>)

  /** The fields of av1_aggr_hdr_decode. */
  datatype AggrHeader = AggrHeader(z: bool, y: bool, w: nat, n: bool)

  function DecodeAggr(v: Byte): (h: AggrHeader) {
    AggrHeader(v / 128 % 2 == 1, v / 64 % 2 == 1, v / 16 % 4, v / 8 % 2 == 1)
  }

  /** The elements of a payload: all prefixed when W is 0, otherwise W of them, the last without prefix. */
  function Elements(w: nat, s: seq<Byte>): (r: Option<seq<seq<Byte>>>)
    decreases |s|
  {
    if w == 1 then Some([s])
    else if w == 0 && s == [] then Some([])
    else match Leb128.Decode(s)
      case None => None
      case Some(n) =>
        if n.used + n.value > |s| then None
        else match Elements(if w == 0 then 0 else w - 1, s[n.used + n.value..])
          case None => None
          case Some(es) => Some([s[n.used..n.used + n.value]] + es)
  }

  /** Units received in full, and the one that continues in the next packet. */
  datatype Received = Received(units: seq<seq<Byte>>, open: Option<seq<Byte>>)

  /** One packet: Z joins its first element to the open unit, Y leaves its last element open. */
  function Feed(st: Received, z: bool, y: bool, es: seq<seq<Byte>>): (r: Received) {
    if es == [] then st
    else
      var first := if z && st.open.Some? then st.open.value + es[0] else es[0];
      var joined := [first] + es[1..];
      if y then Received(st.units + joined[..|joined| - 1], Some(joined[|joined| - 1]))
      else Received(st.units + joined, None)
  }

  function Receive(st: Received, ps: seq<RawPacket>): (r: Option<Received>)
    decreases |ps|
  {
    if ps == [] then Some(st)
    else
      var h := DecodeAggr(ps[0].hdr);
      match Elements(h.w, ps[0].payload)
      case None => None
      case Some(es) => Receive(Feed(st, h.z, h.y, es), ps[1..])
  }

  // ---------------------------------------------------------------- headers and elements

  /** aggr_hdr_encode. */
  function EncodeAggr(z: bool, y: bool, w: nat, n: bool): (v: Byte)
    requires w <= 3
    ensures DecodeAggr(v) == AggrHeader(z, y, w, n)
  {
    (if z then 128 else 0) + (if y then 64 else 0) + w * 16 + (if n then 8 else 0)
  }

  function Raw(p: Packet): (r: RawPacket)
    requires p.w <= 3
  {
    RawPacket(p.marker, EncodeAggr(p.z, p.y, p.w, p.n), Payload(p.elems))
  }

  function RawAll(ps: seq<Packet>): (r: seq<RawPacket>)
    requires forall p :: p in ps ==> p.w <= 3
    ensures |r| == |ps|
  {
    if ps == [] then [] else assert ps[0] in ps; [Raw(ps[0])] + RawAll(ps[1..])
  }

  /** Every packet parses by its own W field into exactly the elements that were written. */
  lemma {:induction false} WFieldAgrees(es: seq<Element>, count: nat, prefixed: bool)
    requires Shaped(es, count, prefixed)
    ensures Elements(if es != [] && !es[|es| - 1].prefixed then |es| else 0, Payload(es)) == Some(Datas(es))
    ensures es != [] && !es[|es| - 1].prefixed ==> !prefixed && count + |es| <= MAX_OBUS
    ensures es == [] || es[|es| - 1].prefixed ==> prefixed || count + |es| > MAX_OBUS
  {
    hide Leb128.Decode, Leb128.Encode, Leb128.Size;
    if es != [] {
      var data := es[0].data;
      if es[0].prefixed {
        WFieldAgrees(es[1..], count + 1, prefixed);
        var s := Payload(es);
        var len := Leb128.Encode(|data|);
        assert s == len + (data + Payload(es[1..]));
        Leb128.RoundTrip(|data|, data + Payload(es[1..]));
        assert s[|len|..|len| + |data|] == data;
        assert s[|len| + |data|..] == Payload(es[1..]);
      } else {
        assert es == [es[0]];
        assert Payload(es) == data && Datas(es) == [data];
      }
    }
  }

  /** The same for the W that the packetizer chooses. */
  lemma FilledPacketParses(t: Todo, cap: nat)
    requires t.Valid() && cap >= 1
    ensures var r := Fill(t, cap, 0);
            WField(r) <= 3 && Elements(WField(r), Payload(r.elems)) == Some(Datas(r.elems))
  {
    FillShape(t, cap, 0);
    var r := Fill(t, cap, 0);
    WFieldAgrees(r.elems, 0, r.prefixed);
  }

  // ---------------------------------------------------------------- one packet at the receiver

  function Units(t: Todo): (r: seq<seq<Byte>>) {
    if t.cur == [] then [] else [t.cur] + t.rest
  }

  /** Taking a whole unit removes it; taking part of one leaves the rest of it in front. */
  lemma AdvanceUnits(t: Todo, n: nat)
    requires t.Valid() && t.cur != [] && n <= |t.cur|
    ensures n == |t.cur| ==> Units(t) == [t.cur[..n]] + Units(t.Advance(n))
    ensures n < |t.cur| ==> Units(t) == [t.cur[..n] + t.Advance(n).cur] + t.rest
    ensures n < |t.cur| ==> Units(t.Advance(n)) == [t.Advance(n).cur] + t.rest
  {
    assert t.cur[..n] + t.cur[n..] == t.cur;
    if n == |t.cur| {
      assert t.cur[..n] == t.cur;
      assert t.rest != [] ==> t.rest == [t.rest[0]] + t.rest[1..];
    }
  }

  /** What the first step of Fill does when it writes a prefixed fragment. */
  lemma PrefixedStep(t: Todo, room: nat, count: nat)
    requires t.Valid() && AtLoopHead(room, count) && t.failure.None? && t.cur != []
    requires NextFragment(|t.cur|, room, count + 1, t.Last()).prefixed
    ensures var f := NextFragment(|t.cur|, room, count + 1, t.Last());
            var cut := Straddles(|t.cur|, room, count + 1, t.Last());
            && 0 < f.len <= |t.cur| && FragmentSize(f) <= room
            && AtLoopHead(room - FragmentSize(f), count + 1)
            && t.Advance(f.len).failure.None?
            && (cut ==> f.len < |t.cur|)
            && (f.len < |t.cur| ==> cut == (Fill(t.Advance(f.len), room - FragmentSize(f), count + 1).elems != []))
            && (f.len < |t.cur| && !cut ==>
                  && Fill(t.Advance(f.len), room - FragmentSize(f), count + 1).todo == t.Advance(f.len)
                  && FillSplits(t.Advance(f.len), room - FragmentSize(f), count + 1) == 0)
  {
    FragmentFits(|t.cur|, room, count + 1, t.Last());
    PartialFragment(|t.cur|, room, count + 1, t.Last());
    var f := NextFragment(|t.cur|, room, count + 1, t.Last());
    if f.len < |t.cur| {
      var t' := t.Advance(f.len);
      FragmentFits(|t'.cur|, room - FragmentSize(f), count + 2, t'.Last());
    }
  }

  /** Fill and the number of its cuts, unfolded after a prefixed fragment. */
  lemma FillPrefixed(t: Todo, room: nat, count: nat, f: Fragment)
    requires t.Valid() && t.cur != [] && t.failure.None?
    requires f == NextFragment(|t.cur|, room, count + 1, t.Last())
    requires f.prefixed && 0 < f.len <= |t.cur| && FragmentSize(f) <= room
    ensures var r := Fill(t.Advance(f.len), room - FragmentSize(f), count + 1);
            var all := Fill(t, room, count);
            && |all.elems| == 1 + |r.elems| && all.todo == r.todo
            && all.open == (if r.elems == [] then f.len < |t.cur| else r.open)
    ensures FillSplits(t, room, count) ==
            (if Straddles(|t.cur|, room, count + 1, t.Last()) then 1 else 0)
            + FillSplits(t.Advance(f.len), room - FragmentSize(f), count + 1)
  {
    hide NextFragment, Straddles, FragmentSize;
  }

  /** Elements of a packet = units finished in it + in-packet cuts + the one left open. */
  lemma {:induction false} FillCounts(t: Todo, room: nat, count: nat)
    requires t.Valid() && AtLoopHead(room, count) && t.failure.None?
    ensures var r := Fill(t, room, count);
            |r.elems| + |Units(r.todo)| == |Units(t)| + FillSplits(t, room, count) + (if r.open then 1 else 0)
    decreases |t.rest|, |t.cur|, 1
  {
    hide NextFragment, Straddles, FragmentSize, Units, AtLoopHead;
    if t.cur != [] {
      var f := NextFragment(|t.cur|, room, count + 1, t.Last());
      if f.prefixed {
        FillCountsMore(t, room, count, f);
      } else {
        FragmentFits(|t.cur|, room, count + 1, t.Last());
        AdvanceUnits(t, f.len);
      }
    }
  }

  lemma {:induction false} FillCountsMore(t: Todo, room: nat, count: nat, f: Fragment)
    requires t.Valid() && AtLoopHead(room, count) && t.failure.None? && t.cur != []
    requires f == NextFragment(|t.cur|, room, count + 1, t.Last()) && f.prefixed
    ensures var r := Fill(t, room, count);
            |r.elems| + |Units(r.todo)| == |Units(t)| + FillSplits(t, room, count) + (if r.open then 1 else 0)
    decreases |t.rest|, |t.cur|, 0
  {
    hide NextFragment, Straddles, FragmentSize, Units, AtLoopHead, Fill, FillSplits;
    PrefixedStep(t, room, count);
    FillPrefixed(t, room, count, f);
    FillOpen(t.Advance(f.len), room - FragmentSize(f), count + 1);
    AdvanceUnits(t, f.len);
    FillCounts(t.Advance(f.len), room - FragmentSize(f), count + 1);
  }

  /** Without in-packet cuts, elements and remaining units join up to the units there were. */
  ghost predicate Joins(es: seq<seq<Byte>>, open: bool, left: seq<seq<Byte>>, units: seq<seq<Byte>>) {
    if open then
      es != [] && left != [] && es[..|es| - 1] + [es[|es| - 1] + left[0]] + left[1..] == units
    else es + left == units
  }

  lemma {:induction false} FillJoins(t: Todo, room: nat, count: nat)
    requires t.Valid() && AtLoopHead(room, count) && t.failure.None?
    requires FillSplits(t, room, count) == 0
    ensures var r := Fill(t, room, count);
            Joins(Datas(r.elems), r.open, Units(r.todo), Units(t))
    decreases |t.rest|, |t.cur|
  {
    hide NextFragment, Straddles, FragmentSize, Joins, Datas, Units;
    NoDatas();
    JoinsNone(Units(t));
    if t.cur != [] {
      FragmentFits(|t.cur|, room, count + 1, t.Last());
      var f := NextFragment(|t.cur|, room, count + 1, t.Last());
      var e := Element(f.prefixed, t.cur[..f.len]);
      JoinsOne(t, f.len, e);
      if f.prefixed {
        PrefixedStep(t, room, count);
        var t', room' := t.Advance(f.len), room - FragmentSize(f);
        var r := Fill(t', room', count + 1);
        if f.len == |t.cur| {
          AdvanceUnits(t, f.len);
          FillJoins(t', room', count + 1);
          ConsDatas(e, r.elems);
          JoinsCons(e.data, Datas(r.elems), r.open, Units(r.todo), Units(t'));
        } else {
          assert [e] + r.elems == [e];
        }
      }
    }
  }

  lemma JoinsNone(us: seq<seq<Byte>>)
    ensures Joins([], false, us, us)
  {
    assert [] + us == us;
  }

  lemma JoinsOne(t: Todo, n: nat, e: Element)
    requires t.Valid() && t.cur != [] && n <= |t.cur| && e.data == t.cur[..n]
    ensures Joins(Datas([e]), n < |t.cur|, Units(t.Advance(n)), Units(t))
  {
    AdvanceUnits(t, n);
    OneData(e);
  }

  lemma JoinsCons(x: seq<Byte>, es: seq<seq<Byte>>, open: bool, left: seq<seq<Byte>>, units: seq<seq<Byte>>)
    requires Joins(es, open, left, units)
    ensures Joins([x] + es, open, left, [x] + units)
  {
    if open {
      assert ([x] + es)[..|es|] == [x] + es[..|es| - 1];
    }
  }

  // ---------------------------------------------------------------- the whole run at the receiver

  /** Units whose first one continues the open unit, if there is one. */
  function Glue(open: Option<seq<Byte>>, us: seq<seq<Byte>>): (r: seq<seq<Byte>>) {
    if open.None? || us == [] then us else [open.value + us[0]] + us[1..]
  }

  lemma GlueAppend(open: Option<seq<Byte>>, a: seq<seq<Byte>>, b: seq<seq<Byte>>)
    requires a != []
    ensures Glue(open, a + b) == Glue(open, a) + b
  {
    assert (a + b)[0] == a[0] && (a + b)[1..] == a[1..] + b;
    if open.Some? {
      Assoc([open.value + a[0]], a[1..], b);
    }
  }

  lemma {:induction false} RawAllCons(p: Packet, ps: seq<Packet>)
    requires p.w <= 3 && forall q :: q in ps ==> q.w <= 3
    ensures (forall q :: q in [p] + ps ==> q.w <= 3)
    ensures RawAll([p] + ps) == [Raw(p)] + RawAll(ps)
  {
    assert ([p] + ps)[1..] == ps;
  }

  lemma {:induction false} RunWFields(t: Todo, cap: nat, marker: bool, z: bool, n: bool)
    requires t.Valid() && cap >= 1
    ensures forall p :: p in Run(t, cap, marker, z, n).packets ==> p.w <= 3
    decreases |t.rest|, |t.cur|
  {
    if t.cur != [] && !Fill(t, cap, 0).failed {
      FillProgress(t, cap, 0);
      RunWFields(Fill(t, cap, 0).todo, cap, marker, Fill(t, cap, 0).open, false);
    }
  }

  lemma FeedCounts(st: Received, z: bool, y: bool, es: seq<seq<Byte>>)
    requires es != []
    ensures var r := Feed(st, z, y, es);
            |r.units| + (if y then 1 else 0) == |st.units| + |es| && r.open.Some? == y
  {
  }

  lemma FeedIsGlue(st: Received, y: bool, es: seq<seq<Byte>>)
    requires es != []
    ensures var r := Feed(st, st.open.Some?, y, es);
            var g := Glue(st.open, es);
            && |g| == |es|
            && r == if y then Received(st.units + g[..|g| - 1], Some(g[|g| - 1])) else Received(st.units + g, None)
  {
    assert [es[0]] + es[1..] == es;
  }

  /** Feeding elements that join up to `units` completes the open unit and then those after it. */
  lemma FeedJoins(st: Received, y: bool, es: seq<seq<Byte>>, left: seq<seq<Byte>>, units: seq<seq<Byte>>)
    requires es != [] && Joins(es, y, left, units)
    ensures var r := Feed(st, st.open.Some?, y, es);
            r.units + Glue(r.open, left) == st.units + Glue(st.open, units)
  {
    FeedIsGlue(st, y, es);
    if !y {
      GlueAppend(st.open, es, left);
      Assoc(st.units, Glue(st.open, es), left);
    } else {
      GlueLast(st.open, es, left);
      var g := Glue(st.open, es);
      Assoc(st.units, g[..|g| - 1], Glue(Some(g[|g| - 1]), left));
    }
  }

  /** Joining first and gluing the open unit on after is gluing first and joining after. */
  lemma GlueLast(open: Option<seq<Byte>>, es: seq<seq<Byte>>, left: seq<seq<Byte>>)
    requires es != [] && left != []
    ensures var g := Glue(open, es);
            |g| == |es| &&
            Glue(open, es[..|es| - 1] + [es[|es| - 1] + left[0]] + left[1..])
            == g[..|g| - 1] + Glue(Some(g[|g| - 1]), left)
  {
    var pre, last := es[..|es| - 1], es[|es| - 1];
    var after := [last + left[0]] + left[1..];
    Assoc(pre, [last + left[0]], left[1..]);
    assert es == pre + [last];
    if pre == [] {
      assert pre + after == after;
      if open.Some? {
        Assoc(open.value, last, left[0]);
      }
    } else {
      GlueAppend(open, pre, [last]);
      GlueAppend(open, pre, after);
      assert Glue(open, es)[..|es| - 1] == Glue(open, pre);
    }
  }

  /**
   Reassembly. The receiver ends with no open unit, and with one unit more than was sent for
   every in-packet cut; without cuts it has exactly the units that were sent.
   */
  lemma {:induction false} RunReceived(t: Todo, cap: nat, marker: bool, n: bool, st: Received)
    requires t.Valid() && cap >= 1 && t.failure.None?
    requires t.cur == [] ==> st.open.None?
    ensures var ps := Run(t, cap, marker, st.open.Some?, n).packets;
            && (forall p :: p in ps ==> p.w <= 3)
            && var r := Receive(st, RawAll(ps));
               && r.Some? && r.value.open.None?
               && |r.value.units| == |st.units| + |Units(t)| + Splits(t, cap)
               && (Splits(t, cap) == 0 ==> r.value.units == st.units + Glue(st.open, Units(t)))
    decreases |t.rest|, |t.cur|
  {
    hide Fill, FillSplits, Units, WField, Payload, Datas, Elements, Feed, Joins, Glue;
    var z := st.open.Some?;
    RunWFields(t, cap, marker, z, n);
    if t.cur == [] {
      NothingReceived(t, st);
    } else {
      FillProgress(t, cap, 0);
      var f := Fill(t, cap, 0);
      var p := Packet(marker && f.todo.cur == [], z, f.open, WField(f), n, f.elems);
      var tail := Run(f.todo, cap, marker, f.open, false).packets;
      FilledPacketParses(t, cap);
      var es := Datas(f.elems);
      var st' := Feed(st, z, f.open, es);
      FeedCounts(st, z, f.open, es);
      FillCounts(t, cap, 0);
      RunReceived(f.todo, cap, marker, false, st');
      RawAllCons(p, tail);
      ReceiveCons(st, p, tail);
      if Splits(t, cap) == 0 {
        FillJoins(t, cap, 0);
        FeedJoins(st, f.open, es, Units(f.todo), Units(t));
      }
    }
  }

  lemma NothingReceived(t: Todo, st: Received)
    requires t.Valid() && t.cur == [] && st.open.None?
    ensures |Units(t)| == 0 && st.units + Glue(st.open, Units(t)) == st.units
  {
  }

  lemma ReceiveCons(st: Received, p: Packet, ps: seq<Packet>)
    requires p.w <= 3 && forall q :: q in ps ==> q.w <= 3
    requires Elements(p.w, Payload(p.elems)) == Some(Datas(p.elems))
    ensures Receive(st, [Raw(p)] + RawAll(ps)) == Receive(Feed(st, p.z, p.y, Datas(p.elems)), RawAll(ps))
  {
    assert ([Raw(p)] + RawAll(ps))[1..] == RawAll(ps);
  }

  /** The elements of all packets, in order. */
  function AllElements(ps: seq<Packet>): (r: seq<Element>) {
    if ps == [] then [] else ps[0].elems + AllElements(ps[1..])
  }

  lemma {:induction false} DatasAppend(a: seq<Element>, b: seq<Element>)
    ensures Datas(a + b) == Datas(a) + Datas(b)
  {
    if a == [] {
      assert a + b == b;
    } else {
      assert (a + b)[1..] == a[1..] + b;
      DatasAppend(a[1..], b);
    }
  }

  /** Conservation over the whole run, cuts or not: no byte lost, repeated or reordered. */
  lemma {:induction false} RunConserves(t: Todo, cap: nat, marker: bool, z: bool, n: bool)
    requires t.Valid() && cap >= 1
    ensures var sent := Flatten(Datas(AllElements(Run(t, cap, marker, z, n).packets)));
            && sent <= t.cur + Flatten(t.rest)
            && (t.failure.None? ==> sent == t.cur + Flatten(t.rest))
    decreases |t.rest|, |t.cur|
  {
    hide Fill, Datas, Flatten, WField;
    NoDatas();
    if t.cur != [] && !Fill(t, cap, 0).failed {
      FillProgress(t, cap, 0);
      FillConserves(t, cap, 0);
      var f := Fill(t, cap, 0);
      var tail := Run(f.todo, cap, marker, f.open, false).packets;
      RunConserves(f.todo, cap, marker, f.open, false);
      DatasAppend(f.elems, AllElements(tail));
      FlattenAppend(Datas(f.elems), Datas(AllElements(tail)));
      assert Run(t, cap, marker, z, n).packets[1..] == tail;
    } else if t.cur != [] {
      FillProgress(t, cap, 0);
    }
  }
}
