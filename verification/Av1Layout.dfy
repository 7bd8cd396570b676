/**
 How the AV1 packetizer lays units out in packets: which fragment comes next, whether it
 carries a length prefix, when a packet is full, and the Z, Y, W and N bits. These functions
 specify the loops of the Av1Packetizer module and carry the theorems about them.
 */
module Av1Layout {
  import opened Bytes
  import Leb128

  const MAX_OBUS := 3

  // ---------------------------------------------------------------- one fragment

  /** calc_fragment_len_with_prefix: the length; its prefix takes Leb128.Size(len) bytes more. */
  function LenWithPrefix(cur: nat, room: nat): (len: nat)
    requires room >= 1
  {
    var len := Min(cur, room - 1);
    var prefix := Leb128.Size(len);
    if len + prefix > room then
      Leb128.SizeAtMostValue(len);
      room - prefix
    else len
  }

  datatype Fragment = Fragment(prefixed: bool, len: nat)

  /** calc_fragment_len for the index-th fragment of a packet; a length of 0 means "no room". */
  function NextFragment(cur: nat, room: nat, index: nat, last: bool): (f: Fragment)
    requires cur >= 1
  {
    if room < 1 then Fragment(false, 0)
    else
      var candidate :=
        if index > MAX_OBUS then Fragment(true, 0)
        else if !last && room > cur then
          var len := LenWithPrefix(cur, room);
          Fragment(len + Leb128.Size(len) <= room - (if index > 2 then 2 else 1), len)
        else Fragment(false, 0);
      if candidate.prefixed then
        if room < 2 then Fragment(false, 0)
        else if candidate.len == 0 then Fragment(true, LenWithPrefix(cur, room))
        else candidate
      else Fragment(false, Min(cur, room))
  }

  function FragmentSize(f: Fragment): nat {
    f.len + if f.prefixed then Leb128.Size(f.len) else 0
  }

  /**
   The guard of the faulty branch: the unit would fit without a prefix but not with one, and
   after the retry the prefix is a byte shorter than the one that was reserved.
   */
  predicate Straddles(cur: nat, room: nat, index: nat, last: bool) {
    && !last && index <= 2
    && cur < room < cur + Leb128.Size(cur)
    && Leb128.Size(cur) <= room
    && Leb128.Size(room - Leb128.Size(cur)) < Leb128.Size(cur)
  }

  lemma StraddleFacts(cur: nat, room: nat)
    requires 1 <= cur < room < cur + Leb128.Size(cur)
    ensures LenWithPrefix(cur, room) == room - Leb128.Size(cur)
    ensures 1 <= room - Leb128.Size(cur) < cur
    ensures Leb128.Size(cur) <= Leb128.Size(room - Leb128.Size(cur)) + 1
  {
    Leb128.SizeAtMostValue(cur);
    Leb128.SizeDropsByAtMostOne(cur, room - Leb128.Size(cur));
  }

  /** The fragment fits its room, and is empty only when the packet is full. */
  lemma FragmentFits(cur: nat, room: nat, index: nat, last: bool)
    requires cur >= 1
    ensures var f := NextFragment(cur, room, index, last);
            && f.len <= cur
            && FragmentSize(f) <= room + (if f.len == 0 then 1 else 0)
            && (f.len == 0 <==> room < (if index > MAX_OBUS then 2 else 1))
            && (f.len == 0 ==> !f.prefixed)
            && (f.len > 0 && !f.prefixed ==> index <= MAX_OBUS)
            && (f.len > 0 && f.prefixed && index <= MAX_OBUS
                ==> FragmentSize(f) + (if index > 2 then 2 else 1) <= room)
  {
    if room >= 1 {
      PrefixFits(cur, room);
    }
  }

  lemma PrefixFits(cur: nat, room: nat)
    requires cur >= 1 && room >= 1
    ensures var len := LenWithPrefix(cur, room);
            && len <= cur
            && len + Leb128.Size(len) <= room
            && (room >= 2 ==> len >= 1)
            && (len < cur && room <= cur ==> room < len + Leb128.Size(len) + 2)
  {
    var len := Min(cur, room - 1);
    if len + Leb128.Size(len) > room {
      Leb128.SizeAtMostValue(len);
      Leb128.SizeMonotone(room - Leb128.Size(len), len);
      Leb128.SizeDropsByAtMostOne(len, room - Leb128.Size(len));
    }
  }

  /**
   A fragment that leaves part of its unit unsent is the last of its packet, except exactly
   when Straddles holds.
   */
  lemma PartialFragment(cur: nat, room: nat, index: nat, last: bool)
    requires cur >= 1
    ensures var f := NextFragment(cur, room, index, last);
            && (Straddles(cur, room, index, last) <==> f.prefixed && f.len < cur && index <= MAX_OBUS)
            && (f.prefixed && f.len < cur && index > MAX_OBUS ==> room - FragmentSize(f) < 2)
  {
    FragmentFits(cur, room, index, last);
    if room >= 1 {
      PrefixFits(cur, room);
      if cur < room < cur + Leb128.Size(cur) {
        StraddleFacts(cur, room);
      }
    }
  }

  // ---------------------------------------------------------------- one packet

  /** One element of a packet: a fragment, and whether its length is written before it. */
  datatype Element = Element(prefixed: bool, data: seq<Byte>)

  function ElementBytes(e: Element): (s: seq<Byte>) {
    (if e.prefixed then Leb128.Encode(|e.data|) else []) + e.data
  }

  function Payload(es: seq<Element>): (s: seq<Byte>) {
    if es == [] then [] else ElementBytes(es[0]) + Payload(es[1..])
  }

  function Datas(es: seq<Element>): (s: seq<seq<Byte>>)
    ensures |s| == |es|
  {
    if es == [] then [] else [es[0].data] + Datas(es[1..])
  }

  /**
   The work left: the unsent bytes of the current unit, the units after it, whether unread
   bytes follow those, and the error that the scan of those bytes ends in.
   */
  datatype Todo = Todo(cur: seq<Byte>, rest: seq<seq<Byte>>, more: bool, failure: Option<Error>) {

    ghost predicate Valid() {
      && (cur == [] ==> rest == [])
      && forall i :: 0 <= i < |rest| ==> rest[i] != []
    }

    /** Whether the input buffer is used up once the current unit has been taken from it. */
    predicate Last() {
      rest == [] && !more && failure.None?
    }

    function Advance(n: nat): (t: Todo)
      requires n <= |cur|
      ensures Valid() ==> t.Valid()
    {
      if n < |cur| then this.(cur := cur[n..])
      else if rest == [] then Todo([], [], false, None)
      else this.(cur := rest[0], rest := rest[1..])
    }
  }

  /**
   A filled packet: its elements, the work left, the prefix decision the loop ended on, whether
   its last element continues in the next packet, and whether the scan failed.
   */
  datatype Filled = Filled(elems: seq<Element>, todo: Todo, prefixed: bool, open: bool, failed: bool)

  function Fill(t: Todo, room: nat, count: nat): (r: Filled)
    requires t.Valid()
    decreases |t.rest|, |t.cur|
  {
    if t.cur == [] then Filled([], t, true, false, false)
    else
      var f := NextFragment(|t.cur|, room, count + 1, t.Last());
      if f.len == 0 then Filled([], t, f.prefixed, false, false)
      else
        FragmentFits(|t.cur|, room, count + 1, t.Last());
        var e := Element(f.prefixed, t.cur[..f.len]);
        var done := f.len == |t.cur|;
        if done && t.rest == [] && t.failure.Some? then
          Filled([e], t.Advance(f.len), f.prefixed, false, true)
        else if !f.prefixed then
          Filled([e], t.Advance(f.len), false, !done, false)
        else
          var r := Fill(t.Advance(f.len), room - FragmentSize(f), count + 1);
          r.(elems := [e] + r.elems, open := if r.elems == [] then !done else r.open)
  }

  lemma FillOpen(t: Todo, room: nat, count: nat)
    requires t.Valid()
    ensures Fill(t, room, count).elems == [] ==> !Fill(t, room, count).open
  {
  }

  /** How often, in one packet, a unit is cut in two elements of that same packet. */
  function FillSplits(t: Todo, room: nat, count: nat): (n: nat)
    requires t.Valid()
    decreases |t.rest|, |t.cur|
  {
    if t.cur == [] then 0
    else
      var f := NextFragment(|t.cur|, room, count + 1, t.Last());
      if f.len == 0 || !f.prefixed then 0
      else
        FragmentFits(|t.cur|, room, count + 1, t.Last());
        (if Straddles(|t.cur|, room, count + 1, t.Last()) then 1 else 0)
        + FillSplits(t.Advance(f.len), room - FragmentSize(f), count + 1)
  }

  /** The step that FillShape, FillConserves and the receiver lemmas follow. */
  ghost predicate Continues(t: Todo, f: Fragment) {
    f.len > 0 && f.prefixed && !(f.len == |t.cur| && t.rest == [] && t.failure.Some?)
  }

  /** Fill and the number of its cuts, unfolded once. */
  lemma FillStep(t: Todo, room: nat, count: nat, f: Fragment)
    requires t.Valid() && t.cur != [] && f == NextFragment(|t.cur|, room, count + 1, t.Last())
    ensures f.len <= |t.cur| && (f.len > 0 ==> FragmentSize(f) <= room)
    ensures f.len == 0 ==>
              Fill(t, room, count) == Filled([], t, f.prefixed, false, false) && FillSplits(t, room, count) == 0
    ensures f.len > 0 ==>
              var e := Element(f.prefixed, t.cur[..f.len]);
              var t' := t.Advance(f.len);
              var done := f.len == |t.cur|;
              if Continues(t, f) then
                var r := Fill(t', room - FragmentSize(f), count + 1);
                Fill(t, room, count) == r.(elems := [e] + r.elems, open := if r.elems == [] then !done else r.open)
              else if done && t.rest == [] && t.failure.Some? then
                Fill(t, room, count) == Filled([e], t', f.prefixed, false, true)
              else Fill(t, room, count) == Filled([e], t', false, !done, false)
    ensures f.len > 0 && f.prefixed ==>
              FillSplits(t, room, count) ==
              (if Straddles(|t.cur|, room, count + 1, t.Last()) then 1 else 0)
              + FillSplits(t.Advance(f.len), room - FragmentSize(f), count + 1)
    ensures !f.prefixed ==> FillSplits(t, room, count) == 0
  {
    hide NextFragment, Straddles, FragmentSize;
    FragmentFits(|t.cur|, room, count + 1, t.Last());
  }

  /** The room there is at the top of the loop after `count` prefixed fragments. */
  ghost predicate AtLoopHead(room: nat, count: nat) {
    (count < MAX_OBUS ==> room >= 1) && (count == MAX_OBUS ==> room >= 2)
  }

  /**
   Elements count+1, count+2, ... of a packet: only the last can lack a prefix, and then it is at
   most the third; when all have one, either the exit flag says so or there are more than three.
   */
  ghost predicate Shaped(es: seq<Element>, count: nat, prefixed: bool) {
    if es == [] then prefixed || count > MAX_OBUS
    else
      && es[0].data != []
      && if es[0].prefixed then Shaped(es[1..], count + 1, prefixed)
         else |es| == 1 && !prefixed && count + 1 <= MAX_OBUS
  }

  lemma {:induction false} FillShape(t: Todo, room: nat, count: nat)
    requires t.Valid() && AtLoopHead(room, count)
    ensures Shaped(Fill(t, room, count).elems, count, Fill(t, room, count).prefixed)
    decreases |t.rest|, |t.cur|
  {
    hide NextFragment, Leb128.Size, Fill, FillSplits, FragmentSize, Straddles;
    if t.cur == [] {
      FillNothing(t, room, count);
    } else {
      FragmentFits(|t.cur|, room, count + 1, t.Last());
      var f := NextFragment(|t.cur|, room, count + 1, t.Last());
      FillStep(t, room, count, f);
      if Continues(t, f) {
        FillShape(t.Advance(f.len), room - FragmentSize(f), count + 1);
        var e := Element(f.prefixed, t.cur[..f.len]);
        var r := Fill(t.Advance(f.len), room - FragmentSize(f), count + 1);
        assert ([e] + r.elems)[1..] == r.elems;
      }
    }
  }

  lemma ElementSize(f: Fragment, cur: seq<Byte>)
    requires f.len <= |cur|
    ensures |ElementBytes(Element(f.prefixed, cur[..f.len]))| == FragmentSize(f)
  {
  }

  lemma {:induction false} FillFits(t: Todo, room: nat, count: nat)
    requires t.Valid()
    ensures Fill(t, room, count).todo.Valid()
    ensures |Payload(Fill(t, room, count).elems)| <= room
    decreases |t.rest|, |t.cur|
  {
    hide NextFragment, ElementBytes, FragmentSize, Leb128.Size, Fill, FillSplits, Straddles;
    if t.cur == [] {
      FillNothing(t, room, count);
    } else {
      var f := NextFragment(|t.cur|, room, count + 1, t.Last());
      FillStep(t, room, count, f);
      if f.len > 0 {
        var e := Element(f.prefixed, t.cur[..f.len]);
        ElementSize(f, t.cur);
        ConsDatas(e, []);
        assert [e] + [] == [e];
        if Continues(t, f) {
          FillFits(t.Advance(f.len), room - FragmentSize(f), count + 1);
          ConsDatas(e, Fill(t.Advance(f.len), room - FragmentSize(f), count + 1).elems);
        }
      }
    }
  }

  /** Nothing is lost, repeated or reordered by a packet. */
  lemma {:induction false} FillConserves(t: Todo, room: nat, count: nat)
    requires t.Valid()
    ensures var r := Fill(t, room, count);
            && Flatten(Datas(r.elems)) + (r.todo.cur + Flatten(r.todo.rest)) == t.cur + Flatten(t.rest)
    decreases |t.rest|, |t.cur|
  {
    hide NextFragment, FragmentSize, Datas, Flatten, Fill, FillSplits, Straddles;
    NoDatas();
    if t.cur == [] {
      FillNothing(t, room, count);
    } else {
      var f := NextFragment(|t.cur|, room, count + 1, t.Last());
      FillStep(t, room, count, f);
      if f.len > 0 {
        var e := Element(f.prefixed, t.cur[..f.len]);
        var t' := t.Advance(f.len);
        AdvanceConserves(t, f.len);
        OneData(e);
        if Continues(t, f) {
          FillConserves(t', room - FragmentSize(f), count + 1);
          var r := Fill(t', room - FragmentSize(f), count + 1);
          ConsDatas(e, r.elems);
          Assoc(e.data, Flatten(Datas(r.elems)), r.todo.cur + Flatten(r.todo.rest));
        }
      }
    }
  }

  lemma NoDatas()
    ensures Datas([]) == [] && Flatten(Datas([])) == []
  {
  }

  lemma OneData(e: Element)
    ensures Datas([e]) == [e.data] && Flatten(Datas([e])) == e.data
  {
    assert Flatten([e.data]) == e.data + Flatten([]);
  }

  lemma ConsDatas(e: Element, es: seq<Element>)
    ensures Datas([e] + es) == [e.data] + Datas(es)
    ensures Flatten(Datas([e] + es)) == e.data + Flatten(Datas(es))
    ensures Payload([e] + es) == ElementBytes(e) + Payload(es)
  {
    assert ([e] + es)[1..] == es;
  }

  lemma AdvanceConserves(t: Todo, n: nat)
    requires t.Valid() && n <= |t.cur|
    ensures t.cur[..n] + (t.Advance(n).cur + Flatten(t.Advance(n).rest)) == t.cur + Flatten(t.rest)
  {
    var t' := t.Advance(n);
    if n < |t.cur| {
      assert t.cur[..n] + t'.cur == t.cur;
      Assoc(t.cur[..n], t'.cur, Flatten(t.rest));
    } else if t.rest == [] {
      assert t.cur[..n] == t.cur;
    } else {
      assert t'.cur + Flatten(t'.rest) == Flatten(t.rest);
    }
  }

  // ---------------------------------------------------------------- all packets

  ghost predicate Less(a: Todo, b: Todo) {
    |a.rest| < |b.rest| || (|a.rest| == |b.rest| && |a.cur| < |b.cur|)
  }

  /** A packet makes progress, and ends in the failure of the scan or keeps it in view. */
  ghost predicate Progress(t: Todo, r: Filled) {
    && r.todo.Valid()
    && (if r.elems == [] then r.todo == t else Less(r.todo, t))
    && (r.failed ==> t.failure.Some?)
    && (!r.failed ==> r.todo.failure == t.failure)
    && (r.open ==> r.todo.cur != [])
  }

  lemma AdvanceProgress(t: Todo, n: nat)
    requires t.Valid() && 0 < n <= |t.cur|
    ensures Less(t.Advance(n), t)
    ensures n < |t.cur| || t.rest != [] || t.failure.None? ==> t.Advance(n).failure == t.failure
    ensures n < |t.cur| ==> t.Advance(n).cur != []
  {
  }

  lemma FillNothing(t: Todo, room: nat, count: nat)
    requires t.Valid() && t.cur == []
    ensures Fill(t, room, count) == Filled([], t, true, false, false) && FillSplits(t, room, count) == 0
  {
  }

  lemma {:induction false} FillProgress(t: Todo, room: nat, count: nat)
    requires t.Valid() && t.cur != []
    ensures Progress(t, Fill(t, room, count))
    ensures room >= 1 && count == 0 ==> Fill(t, room, count).elems != []
    decreases |t.rest|, |t.cur|
  {
    hide NextFragment, Leb128.Size, Fill, FillSplits, FragmentSize, Straddles;
    var f := NextFragment(|t.cur|, room, count + 1, t.Last());
    FillStep(t, room, count, f);
    FragmentFits(|t.cur|, room, count + 1, t.Last());
    if f.len > 0 {
      var t' := t.Advance(f.len);
      AdvanceProgress(t, f.len);
      if Continues(t, f) {
        if t'.cur != [] {
          FillProgress(t', room - FragmentSize(f), count + 1);
        } else {
          FillNothing(t', room - FragmentSize(f), count + 1);
        }
      }
    }
  }

  /** One RTP packet, before its bits are written: marker, aggregation header and elements. */
  datatype Packet = Packet(marker: bool, z: bool, y: bool, w: nat, n: bool, elems: seq<Element>)

  datatype Outcome = Outcome(packets: seq<Packet>, failure: Option<Error>)

  function WField(r: Filled): (w: nat) {
    if |r.elems| > MAX_OBUS || r.prefixed then 0 else |r.elems|
  }

  /** The packets for the work t, cap bytes of payload at most in each. */
  function Run(t: Todo, cap: nat, marker: bool, z: bool, n: bool): (o: Outcome)
    requires t.Valid() && cap >= 1
    decreases |t.rest|, |t.cur|
  {
    if t.cur == [] then Outcome([], None)
    else
      var r := Fill(t, cap, 0);
      if r.failed then Outcome([], t.failure)
      else
        FillProgress(t, cap, 0);
        var p := Packet(marker && r.todo.cur == [], z, r.open, WField(r), n, r.elems);
        var o := Run(r.todo, cap, marker, r.open, false);
        o.(packets := [p] + o.packets)
  }

  /** In-packet cuts over the whole run: computable from the unit sizes and the packet size. */
  function Splits(t: Todo, cap: nat): (n: nat)
    requires t.Valid() && cap >= 1
    decreases |t.rest|, |t.cur|
  {
    if t.cur == [] then 0
    else
      FillProgress(t, cap, 0);
      FillSplits(t, cap, 0) + Splits(Fill(t, cap, 0).todo, cap)
  }

  /** The same sizes and the same flags, whatever the bytes. */
  ghost predicate Alike(t: Todo, u: Todo) {
    && |t.cur| == |u.cur| && |t.rest| == |u.rest| && t.more == u.more && t.failure == u.failure
    && forall i :: 0 <= i < |t.rest| ==> |t.rest[i]| == |u.rest[i]|
  }

  lemma AdvanceAlike(t: Todo, u: Todo, n: nat)
    requires Alike(t, u) && n <= |t.cur|
    ensures Alike(t.Advance(n), u.Advance(n)) && t.Last() == u.Last()
  {
  }

  lemma {:induction false} FillAlike(t: Todo, u: Todo, room: nat, count: nat)
    requires t.Valid() && u.Valid() && Alike(t, u)
    ensures FillSplits(t, room, count) == FillSplits(u, room, count)
    ensures Alike(Fill(t, room, count).todo, Fill(u, room, count).todo)
    decreases |t.rest|, |t.cur|
  {
    hide NextFragment, Straddles, FragmentSize, Fill, FillSplits;
    AdvanceAlike(t, u, 0);
    if t.cur != [] {
      var f := NextFragment(|t.cur|, room, count + 1, t.Last());
      FillStep(t, room, count, f);
      FillStep(u, room, count, f);
      if f.len > 0 {
        AdvanceAlike(t, u, f.len);
        if f.prefixed {
          FillAlike(t.Advance(f.len), u.Advance(f.len), room - FragmentSize(f), count + 1);
        }
      }
    } else {
      FillNothing(t, room, count);
      FillNothing(u, room, count);
    }
  }

  /** The number of cuts depends on nothing else. */
  lemma {:induction false} SplitsAlike(t: Todo, u: Todo, cap: nat)
    requires t.Valid() && u.Valid() && Alike(t, u) && cap >= 1
    ensures Splits(t, cap) == Splits(u, cap)
    decreases |t.rest|, |t.cur|
  {
    hide Fill, FillSplits;
    if t.cur != [] {
      FillProgress(t, cap, 0);
      FillProgress(u, cap, 0);
      FillAlike(t, u, cap, 0);
      SplitsAlike(Fill(t, cap, 0).todo, Fill(u, cap, 0).todo, cap);
    }
  }

  /** Bounds on each packet and the chaining of the header bits, for every run that succeeds. */
  ghost predicate WellChained(ps: seq<Packet>, cap: nat, marker: bool, z: bool, n: bool) {
    forall i :: 0 <= i < |ps| ==>
      && 1 <= |Payload(ps[i].elems)| <= cap
      && ps[i].z == (if i == 0 then z else ps[i - 1].y)
      && ps[i].n == (n && i == 0)
      && ps[i].marker == (marker && i == |ps| - 1)
      && (i == |ps| - 1 ==> !ps[i].y)
  }

  lemma {:induction false} RunChained(t: Todo, cap: nat, marker: bool, z: bool, n: bool)
    requires t.Valid() && cap >= 1 && t.failure.None?
    ensures WellChained(Run(t, cap, marker, z, n).packets, cap, marker, z, n)
    ensures Run(t, cap, marker, z, n).packets == [] <==> t.cur == []
    decreases |t.rest|, |t.cur|
  {
    hide Fill, Payload, Shaped, WField, AtLoopHead, WellChained;
    AtStart(cap);
    if t.cur == [] {
      NoChain(cap, marker, z, n);
    } else {
      FillProgress(t, cap, 0);
      FillFits(t, cap, 0);
      FillShape(t, cap, 0);
      var r := Fill(t, cap, 0);
      PayloadNonEmpty(r.elems, 0, r.prefixed);
      RunChained(r.todo, cap, marker, r.open, false);
      var p := Packet(marker && r.todo.cur == [], z, r.open, WField(r), n, r.elems);
      ChainCons(p, Run(r.todo, cap, marker, r.open, false).packets, cap, marker);
    }
  }

  lemma NoChain(cap: nat, marker: bool, z: bool, n: bool)
    ensures WellChained([], cap, marker, z, n)
  {
  }

  lemma ChainCons(p: Packet, ps: seq<Packet>, cap: nat, marker: bool)
    requires WellChained(ps, cap, marker, p.y, false) && 1 <= |Payload(p.elems)| <= cap
    requires p.marker == (marker && ps == []) && (ps == [] ==> !p.y)
    ensures WellChained([p] + ps, cap, marker, p.z, p.n)
  {
    hide Payload;
    var all := [p] + ps;
    forall i | 0 < i < |all| ensures
        && 1 <= |Payload(all[i].elems)| <= cap && all[i].z == all[i - 1].y && !all[i].n
        && all[i].marker == (marker && i == |all| - 1) && (i == |all| - 1 ==> !all[i].y)
    {
      assert all[i] == ps[i - 1];
      if i > 1 {
        assert all[i - 1] == ps[i - 2];
      }
    }
  }

  lemma AtStart(cap: nat)
    requires cap >= 1
    ensures AtLoopHead(cap, 0)
  {
  }

  lemma PayloadNonEmpty(es: seq<Element>, count: nat, prefixed: bool)
    requires es != [] && Shaped(es, count, prefixed)
    ensures |Payload(es)| >= 1
  {
  }

  /** The run reports the error the scan ends in, and no other. */
  lemma {:induction false} RunFailure(t: Todo, cap: nat, marker: bool, z: bool, n: bool)
    requires t.Valid() && cap >= 1 && t.cur != []
    ensures Run(t, cap, marker, z, n).failure == t.failure
    decreases |t.rest|, |t.cur|
  {
    FillProgress(t, cap, 0);
    var r := Fill(t, cap, 0);
    if !r.failed && r.todo.cur != [] {
      RunFailure(r.todo, cap, marker, r.open, false);
    } else if !r.failed {
      FillEnds(t, cap, 0);
    }
  }

  /** A packet after which nothing is left, on a run that did not fail, saw the end of the buffer. */
  lemma {:induction false} FillEnds(t: Todo, room: nat, count: nat)
    requires t.Valid() && t.cur != []
    ensures !Fill(t, room, count).failed && Fill(t, room, count).todo.cur == [] ==> t.failure.None?
    decreases |t.rest|, |t.cur|
  {
    hide NextFragment;
    FragmentFits(|t.cur|, room, count + 1, t.Last());
    var f := NextFragment(|t.cur|, room, count + 1, t.Last());
    if Continues(t, f) && t.Advance(f.len).cur != [] {
      FillEnds(t.Advance(f.len), room - FragmentSize(f), count + 1);
    }
  }
}
