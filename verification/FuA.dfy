/**
 H.264 over RTP as the RTSP server sends it (rtsp_server.c): single NAL unit packets and FU-A fragments,
 against a receiver written from section 5.8 of RFC 6184 and section 5.1 of RFC 3550.
 */
module FuA {
  import opened Bytes

  const MTU := 1200
  const CHUNK := 1198
  const FRAME_TICKS := 6000      // 90000 ticks per second, 15 frames per second
  const SEQ_MOD := 0x10000
  const TS_MOD := 0x1_0000_0000

  type Nalu = seq<Byte>
  datatype Packet = Packet(num: nat, ts: nat, marker: bool, payload: seq<Byte>)

  // ---------------------------------------------------------------- the sender

  function Fragment(hdr: Byte, first: bool, last: bool, chunk: seq<Byte>): (r: seq<Byte>) {
    [hdr / 32 * 32 + 28, hdr % 32 + (if first then 128 else 0) + (if last then 64 else 0)] + chunk
  }

  /** The payloads that carry the rest of a unit with the given header byte. */
  function Fragments(hdr: Byte, rest: seq<Byte>, first: bool): (ps: seq<seq<Byte>>)
    requires rest != []
    ensures ps != []
    decreases |rest|
  {
    if |rest| <= CHUNK then [Fragment(hdr, first, true, rest)]
    else [Fragment(hdr, first, false, rest[..CHUNK])] + Fragments(hdr, rest[CHUNK..], false)
  }

  function Payloads(n: Nalu): (ps: seq<seq<Byte>>) {
    if n == [] then [] else if |n| <= MTU then [n] else Fragments(n[0], n[1..], true)
  }

  /** Packets with consecutive numbers; the marker, if any, is on the last. */
  function Packets(ps: seq<seq<Byte>>, num: nat, ts: nat, last: bool): (r: seq<Packet>)
    ensures |r| == |ps|
    decreases |ps|
  {
    if ps == [] then []
    else [Packet(num, ts, last && |ps| == 1, ps[0])] + Packets(ps[1..], (num + 1) % SEQ_MOD, ts, last)
  }

  function Advance(num: nat, k: nat): (r: nat) {
    (num + k) % SEQ_MOD
  }

  function NaluPackets(n: Nalu, num: nat, ts: nat, last: bool): (r: seq<Packet>) {
    Packets(Payloads(n), num, ts, last)
  }

  function FramePackets(ns: seq<Nalu>, num: nat, ts: nat): (r: seq<Packet>)
    decreases |ns|
  {
    if ns == [] then []
    else
      var ps := NaluPackets(ns[0], num, ts, |ns| == 1);
      ps + FramePackets(ns[1..], Advance(num, |ps|), ts)
  }

  /** Frame after frame to one client. */
  function StreamPackets(fs: seq<seq<Nalu>>, num: nat, ts: nat): (r: seq<Packet>)
    decreases |fs|
  {
    if fs == [] then []
    else
      var ps := FramePackets(fs[0], num, ts);
      ps + StreamPackets(fs[1..], Advance(num, |ps|), (ts + FRAME_TICKS) % TS_MOD)
  }

  // ---------------------------------------------------------------- the receiver

  /**
   A receiver: the fragments of the unit being received, the number expected next, the units of the
   access unit being received with its timestamp, and the access units completed by a marker.
   */
  datatype Receiver = Receiver(
    pending: Option<Nalu>, next: nat, nals: seq<Nalu>, times: set<nat>, done: seq<(seq<Nalu>, set<nat>)>)

  function Take(r: Receiver, n: Nalu): (r': Receiver) {
    r.(pending := None, nals := r.nals + [n])
  }

  /** Sections 5.6 and 5.8 of RFC 6184; other packet types are passed over. */
  function Depacketize(r: Receiver, payload: seq<Byte>): (r': Receiver) {
    if payload == [] then r
    else if 1 <= payload[0] % 32 <= 23 then Take(r, payload)
    else if payload[0] % 32 == 28 && |payload| >= 2 then
      var start, end := payload[1] / 128 == 1, payload[1] / 64 % 2 == 1;
      var sofar: Option<Nalu> :=
        if start then Some([payload[0] / 32 * 32 + payload[1] % 32] + payload[2..])
        else if r.pending.Some? then Some(r.pending.value + payload[2..])
        else None;
      if start && end then r.(pending := None)        // not allowed
      else if end && sofar.Some? then Take(r, sofar.value)
      else r.(pending := sofar)
    else r
  }

  function Receive(r: Receiver, p: Packet): (r': Receiver) {
    var r0 := if p.num == r.next then r else r.(pending := None);
    var r1 := Depacketize(r0, p.payload).(next := Advance(p.num, 1), times := r.times + {p.ts});
    if p.marker then r1.(nals := [], times := {}, done := r1.done + [(r1.nals, r1.times)]) else r1
  }

  function ReceiveAll(r: Receiver, ps: seq<Packet>): (r': Receiver)
    decreases |ps|
  {
    if ps == [] then r else ReceiveAll(Receive(r, ps[0]), ps[1..])
  }

  lemma {:induction false} ReceiveAppend(r: Receiver, a: seq<Packet>, b: seq<Packet>)
    ensures ReceiveAll(r, a + b) == ReceiveAll(ReceiveAll(r, a), b)
    decreases |a|
  {
    if a == [] {
      assert a + b == b;
    } else {
      assert (a + b)[1..] == a[1..] + b;
      ReceiveAppend(Receive(r, a[0]), a[1..], b);
    }
  }

  // ---------------------------------------------------------------- shape of the packets

  lemma FragmentBits(hdr: Byte, first: bool, last: bool, chunk: seq<Byte>)
    ensures var p := Fragment(hdr, first, last, chunk);
            && |p| == 2 + |chunk| && p[0] % 32 == 28 && p[0] / 32 == hdr / 32
            && (p[1] / 128 == 1 <==> first) && (p[1] / 64 % 2 == 1 <==> last) && p[1] % 32 == hdr % 32
            && p[2..] == chunk
  {
  }

  /** A fragment that neither says it is both first and last, nor exceeds the MTU. */
  ghost predicate FragmentOk(p: seq<Byte>) {
    && 2 < |p| <= MTU && p[0] % 32 == 28
    && !(p[1] / 128 == 1 && p[1] / 64 % 2 == 1)
  }

  lemma {:induction false} FragmentsOk(hdr: Byte, rest: seq<Byte>, first: bool)
    requires rest != [] && (first ==> |rest| > CHUNK)
    ensures forall p :: p in Fragments(hdr, rest, first) ==> FragmentOk(p)
    ensures forall i :: 0 <= i < |Fragments(hdr, rest, first)| ==>
              var p := Fragments(hdr, rest, first)[i];
              && |p| > 1 && (p[1] / 128 == 1 <==> first && i == 0)
              && (p[1] / 64 % 2 == 1 <==> i == |Fragments(hdr, rest, first)| - 1)
    decreases |rest|
  {
    hide Fragment;
    if |rest| <= CHUNK {
      FragmentBits(hdr, first, true, rest);
    } else {
      FragmentBits(hdr, first, false, rest[..CHUNK]);
      FragmentsOk(hdr, rest[CHUNK..], false);
    }
  }

  /** Every payload of a unit is of 1 to 1200 bytes, and no fragment is both first and last. */
  lemma PayloadsOk(n: Nalu)
    ensures forall p :: p in Payloads(n) ==> 0 < |p| <= MTU
    ensures |n| > MTU ==> forall p :: p in Payloads(n) ==> FragmentOk(p)
    ensures n != [] ==> Payloads(n) != []
  {
    if |n| > MTU {
      FragmentsOk(n[0], n[1..], true);
      forall p | p in Payloads(n) ensures 0 < |p| <= MTU {
        assert FragmentOk(p);
      }
    }
  }

  /** The k-th of a run of packets: numbered k later, and with the marker only if it is the last. */
  lemma {:induction false} PacketsNumbered(ps: seq<seq<Byte>>, num: nat, ts: nat, last: bool, k: nat)
    requires num < SEQ_MOD && k < |ps|
    ensures Packets(ps, num, ts, last)[k] == Packet(Advance(num, k), ts, last && k == |ps| - 1, ps[k])
    decreases |ps|
  {
    if k > 0 {
      PacketsNumbered(ps[1..], (num + 1) % SEQ_MOD, ts, last, k - 1);
      AdvanceOn(num, 1, k - 1);
    }
  }

  lemma AdvanceOn(num: nat, a: nat, b: nat)
    ensures Advance(Advance(num, a), b) == Advance(num, a + b)
  {
  }

  function AllPayloads(ns: seq<Nalu>): (ps: seq<seq<Byte>>) {
    if ns == [] then [] else Payloads(ns[0]) + AllPayloads(ns[1..])
  }

  ghost predicate NonEmpty(ns: seq<Nalu>) {
    forall n :: n in ns ==> n != []
  }

  lemma {:induction false} PacketsSplit(a: seq<seq<Byte>>, b: seq<seq<Byte>>, num: nat, ts: nat, last: bool)
    requires b != [] && num < SEQ_MOD
    ensures Packets(a + b, num, ts, last) == Packets(a, num, ts, false) + Packets(b, Advance(num, |a|), ts, last)
    decreases |a|
  {
    if a == [] {
      assert a + b == b;
    } else {
      assert (a + b)[1..] == a[1..] + b;
      PacketsSplit(a[1..], b, (num + 1) % SEQ_MOD, ts, last);
      AdvanceOn(num, 1, |a| - 1);
    }
  }

  lemma {:induction false} AllPayloadsNonEmpty(ns: seq<Nalu>)
    requires NonEmpty(ns) && ns != []
    ensures AllPayloads(ns) != []
  {
    assert ns[0] in ns;
    PayloadsOk(ns[0]);
  }

  /**
   A frame of non-empty units is one run of packets: consecutive numbers modulo 2^16, one timestamp,
   and the marker on the frame's last packet only.
   */
  lemma {:induction false} FrameIsOneRun(ns: seq<Nalu>, num: nat, ts: nat)
    requires NonEmpty(ns) && num < SEQ_MOD
    ensures FramePackets(ns, num, ts) == Packets(AllPayloads(ns), num, ts, true)
    decreases |ns|
  {
    hide Packets, Payloads, Advance;
    if ns == [] {
      assert Packets([], num, ts, true) == [] by { NoPackets(num, ts); }
    } else {
      assert ns[0] in ns;
      var ps := Payloads(ns[0]);
      var num' := Advance(num, |ps|);
      AdvanceBound(num, |ps|);
      forall n | n in ns[1..] ensures n != [] {
        assert n in ns;
      }
      FrameIsOneRun(ns[1..], num', ts);
      if |ns| == 1 {
        assert AllPayloads(ns[1..]) == [];
        NoPackets(num', ts);
        assert ps + [] == ps && NaluPackets(ns[0], num, ts, true) + [] == NaluPackets(ns[0], num, ts, true);
      } else {
        AllPayloadsNonEmpty(ns[1..]);
        PacketsSplit(ps, AllPayloads(ns[1..]), num, ts, true);
      }
    }
  }

  lemma NoPackets(num: nat, ts: nat)
    ensures Packets([], num, ts, true) == []
  {
  }

  lemma AdvanceBound(num: nat, k: nat)
    ensures Advance(num, k) < SEQ_MOD
  {
  }

  lemma FramePacket(ns: seq<Nalu>, num: nat, ts: nat, k: nat)
    requires NonEmpty(ns) && num < SEQ_MOD && k < |FramePackets(ns, num, ts)|
    ensures var ps := FramePackets(ns, num, ts);
            && ps[k].num == (num + k) % 65536 && ps[k].ts == ts
            && (ps[k].marker <==> k == |ps| - 1)
            && 0 < |ps[k].payload| <= MTU
  {
    hide Packets;
    FrameIsOneRun(ns, num, ts);
    PacketsNumbered(AllPayloads(ns), num, ts, true, k);
    AllPayloadsOk(ns);
  }

  lemma {:induction false} AllPayloadsOk(ns: seq<Nalu>)
    ensures forall p :: p in AllPayloads(ns) ==> 0 < |p| <= MTU
  {
    if ns != [] {
      PayloadsOk(ns[0]);
      AllPayloadsOk(ns[1..]);
    }
  }

  // ---------------------------------------------------------------- reception

  /** A unit that a receiver can take for what it is: a short one must have a type of its own. */
  ghost predicate Sendable(n: Nalu) {
    n != [] && (|n| <= MTU ==> 1 <= n[0] % 32 <= 23)
  }

  /** The receiver once a whole unit has arrived, with n packets. */
  function Received(r: Receiver, n: Nalu, k: nat, ts: nat, last: bool): (r': Receiver) {
    var nals, times := r.nals + [n], r.times + {ts};
    if last then Receiver(None, Advance(r.next, k), [], {}, r.done + [(nals, times)])
    else Receiver(None, Advance(r.next, k), nals, times, r.done)
  }

  lemma FragmentReceived(r: Receiver, hdr: Byte, first: bool, last: bool, chunk: seq<Byte>)
    requires !(first && last) && (first || r.pending.Some?)
    ensures var n := (if first then [hdr] else r.pending.value) + chunk;
            Depacketize(r, Fragment(hdr, first, last, chunk)) ==
            if last then Take(r, n) else r.(pending := Some(n))
  {
    hide Fragment;
    FragmentBits(hdr, first, last, chunk);
    assert hdr == hdr / 32 * 32 + hdr % 32;
  }

  /** The fragments of the rest of a unit complete it. */
  lemma {:induction false} FragmentsReceived(
    r: Receiver, hdr: Byte, sofar: Nalu, rest: seq<Byte>, first: bool, num: nat, ts: nat, last: bool)
    requires rest != [] && (first ==> |rest| > CHUNK && sofar == [hdr]) && (!first ==> r.pending == Some(sofar))
    requires r.next == num < SEQ_MOD
    ensures var ps := Packets(Fragments(hdr, rest, first), num, ts, last);
            ReceiveAll(r, ps) == Received(r, sofar + rest, |ps|, ts, last)
    decreases |rest|
  {
    hide Fragment, Depacketize;
    var fs := Fragments(hdr, rest, first);
    var ps := Packets(fs, num, ts, last);
    if |rest| <= CHUNK {
      FragmentReceived(r, hdr, first, true, rest);
      assert fs[1..] == [] && ps[1..] == [];
      OnePacket(r, ps[0]);
      assert ps == [ps[0]];
    } else {
      var chunk, rest' := rest[..CHUNK], rest[CHUNK..];
      FragmentReceived(r, hdr, first, false, chunk);
      assert fs[1..] == Fragments(hdr, rest', false);
      var r1 := Receive(r, ps[0]);
      assert r1 == Receiver(Some(sofar + chunk), Advance(num, 1), r.nals, r.times + {ts}, r.done);
      FragmentsReceived(r1, hdr, sofar + chunk, rest', false, Advance(num, 1), ts, last);
      assert (sofar + chunk) + rest' == sofar + rest;
      AdvanceOn(num, 1, |ps| - 1);
      assert ps[1..] == Packets(Fragments(hdr, rest', false), Advance(num, 1), ts, last);
      assert r1.times + {ts} == r.times + {ts};
    }
  }

  lemma OnePacket(r: Receiver, p: Packet)
    ensures ReceiveAll(r, [p]) == Receive(r, p)
  {
    assert [p][1..] == [];
  }

  /** One unit, whole or in fragments. */
  lemma NaluReceived(r: Receiver, n: Nalu, num: nat, ts: nat, last: bool)
    requires Sendable(n) && r.pending == None && r.next == num < SEQ_MOD
    ensures var ps := NaluPackets(n, num, ts, last);
            ReceiveAll(r, ps) == Received(r, n, |ps|, ts, last)
  {
    if |n| <= MTU {
      var ps := NaluPackets(n, num, ts, last);
      assert Payloads(n)[1..] == [];
      assert ps == [Packet(num, ts, last, n)];
      OnePacket(r, ps[0]);
    } else {
      FragmentsReceived(r, n[0], [n[0]], n[1..], true, num, ts, last);
      assert [n[0]] + n[1..] == n;
    }
  }

  ghost predicate AllSendable(ns: seq<Nalu>) {
    forall n :: n in ns ==> Sendable(n)
  }

  /** The rest of a frame completes its access unit. */
  lemma {:induction false} FrameReceived(r: Receiver, ns: seq<Nalu>, num: nat, ts: nat)
    requires ns != [] && AllSendable(ns) && r.pending == None && r.next == num < SEQ_MOD
    ensures var ps := FramePackets(ns, num, ts);
            ReceiveAll(r, ps) ==
            Receiver(None, Advance(num, |ps|), [], {}, r.done + [(r.nals + ns, r.times + {ts})])
    decreases |ns|
  {
    hide NaluPackets, ReceiveAll, Advance;
    var n := ns[0];
    assert n in ns;
    var ps := NaluPackets(n, num, ts, |ns| == 1);
    var num' := Advance(num, |ps|);
    var more := FramePackets(ns[1..], num', ts);
    AdvanceBound(num, |ps|);
    NaluReceived(r, n, num, ts, |ns| == 1);
    ReceiveAppend(r, ps, more);
    AdvanceOn(num, |ps|, |more|);
    if |ns| == 1 {
      assert ns == [n] && more == [] && ps + more == ps;
    } else {
      var r1 := Received(r, n, |ps|, ts, false);
      FrameReceived(r1, ns[1..], num', ts);
      assert (r.nals + [n]) + ns[1..] == r.nals + ns;
      assert (r.times + {ts}) + {ts} == r.times + {ts};
    }
  }

  /** Every frame sent, with the timestamp of its turn. */
  function Stamped(fs: seq<seq<Nalu>>, ts: nat): (r: seq<(seq<Nalu>, set<nat>)>)
    decreases |fs|
  {
    if fs == [] then [] else [(fs[0], {ts})] + Stamped(fs[1..], (ts + FRAME_TICKS) % TS_MOD)
  }

  ghost predicate AllFrames(fs: seq<seq<Nalu>>) {
    forall ns :: ns in fs ==> ns != [] && AllSendable(ns)
  }

  lemma NothingReceived(r: Receiver)
    ensures ReceiveAll(r, []) == r && r.done + [] == r.done
  {
  }

  lemma RestFrames(fs: seq<seq<Nalu>>)
    requires AllFrames(fs) && fs != []
    ensures AllFrames(fs[1..]) && fs[0] != [] && AllSendable(fs[0])
  {
    hide AllSendable;
    assert fs[0] in fs;
    forall ns | ns in fs[1..] ensures ns != [] && AllSendable(ns) {
      assert ns in fs;
    }
  }

  /**
   Over a whole stream the receiver recovers the exact frames, each with its exact units and one
   timestamp, however often the sequence numbers and timestamps wrap around.
   */
  lemma {:induction false} StreamReceived(r: Receiver, fs: seq<seq<Nalu>>, num: nat, ts: nat)
    requires AllFrames(fs)
    requires r.pending == None && r.next == num < SEQ_MOD && r.nals == [] && r.times == {}
    ensures ReceiveAll(r, StreamPackets(fs, num, ts)).done == r.done + Stamped(fs, ts)
    decreases |fs|
  {
    hide FramePackets, Advance, AllSendable, AllFrames, ReceiveAll, Receive;
    if fs == [] {
      NothingReceived(r);
    } else {
      var ns := fs[0];
      RestFrames(fs);
      var ps := FramePackets(ns, num, ts);
      var num', ts' := Advance(num, |ps|), (ts + FRAME_TICKS) % TS_MOD;
      AdvanceBound(num, |ps|);
      FrameReceived(r, ns, num, ts);
      ReceiveAppend(r, ps, StreamPackets(fs[1..], num', ts'));
      assert [] + ns == ns && {} + {ts} == {ts};
      var r1 := ReceiveAll(r, ps);
      StreamReceived(r1, fs[1..], num', ts');
      Assoc(r.done, [(ns, {ts})], Stamped(fs[1..], ts'));
    }
  }

  /** A frame whose last unit is empty is sent without any marker: its end is not marked. */
  lemma {:induction false} MarkerMissing(ns: seq<Nalu>, num: nat, ts: nat)
    requires ns != [] && num < SEQ_MOD
    ensures (exists p :: p in FramePackets(ns, num, ts) && p.marker) <==> ns[|ns| - 1] != []
    decreases |ns|
  {
    hide Advance, Payloads;
    var n := ns[0];
    var ps := NaluPackets(n, num, ts, |ns| == 1);
    var num' := Advance(num, |ps|);
    AdvanceBound(num, |ps|);
    if |ns| == 1 {
      assert FramePackets(ns, num, ts) == ps + [];
      EmptyUnit(n);
      if n != [] {
        PacketsNumbered(Payloads(n), num, ts, true, |ps| - 1);
        assert ps[|ps| - 1].marker && ps[|ps| - 1] in FramePackets(ns, num, ts);
      }
    } else {
      var more := FramePackets(ns[1..], num', ts);
      MarkerMissing(ns[1..], num', ts);
      Unmarked(Payloads(n), num, ts);
      assert forall p :: p in ps ==> !p.marker;
      assert FramePackets(ns, num, ts) == ps + more;
    }
  }

  lemma EmptyUnit(n: Nalu)
    ensures n == [] <==> Payloads(n) == []
  {
  }

  lemma {:induction false} Unmarked(ps: seq<seq<Byte>>, num: nat, ts: nat)
    ensures forall p :: p in Packets(ps, num, ts, false) ==> !p.marker
    decreases |ps|
  {
    if ps != [] {
      Unmarked(ps[1..], (num + 1) % SEQ_MOD, ts);
    }
  }

  // ---------------------------------------------------------------- sizes and times

  /**
   A unit of at most 1200 bytes is one packet as it is. A longer one is cut into fragments of which all
   but the last have 1200 bytes, two of them headers, so there are no more fragments than needed.
   */
  lemma PayloadSizes(n: Nalu)
    ensures n != [] && |n| <= 1200 ==> Payloads(n) == [n]
    ensures |n| > 1200 ==>
              var ps := Payloads(n);
              && |ps| == (|n| - 1 + 1197) / 1198
              && (forall i :: 0 <= i < |ps| - 1 ==> |ps[i]| == 1200)
              && (forall i :: 0 <= i < |ps| ==> 3 <= |ps[i]| <= 1200)
  {
    if |n| > 1200 {
      FragmentSizes(n[0], n[1..], true);
    }
  }

  lemma {:induction false} FragmentSizes(hdr: Byte, rest: seq<Byte>, first: bool)
    requires rest != []
    ensures var ps := Fragments(hdr, rest, first);
            && |ps| == (|rest| + 1197) / 1198
            && (forall i :: 0 <= i < |ps| - 1 ==> |ps[i]| == 1200)
            && (forall i :: 0 <= i < |ps| ==> 3 <= |ps[i]| <= 1200)
    decreases |rest|
  {
    hide Fragment;
    if |rest| <= CHUNK {
      FragmentBits(hdr, first, true, rest);
    } else {
      FragmentBits(hdr, first, false, rest[..CHUNK]);
      FragmentSizes(hdr, rest[CHUNK..], false);
    }
  }

  /** Frame k of a stream is stamped k fifteenths of a second later, on a 32-bit clock of 90000 ticks. */
  lemma {:induction false} StampedAt(fs: seq<seq<Nalu>>, ts: nat, k: nat)
    requires ts < 0x1_0000_0000 && k < |fs|
    ensures |Stamped(fs, ts)| == |fs|
    ensures Stamped(fs, ts)[k] == (fs[k], {(ts + k * 90000 / 15) % 0x1_0000_0000})
    decreases |fs|
  {
    Fifteenths(k);
    if k > 0 {
      StampedAt(fs[1..], (ts + FRAME_TICKS) % TS_MOD, k - 1);
      Fifteenths(k - 1);
      Later(ts, 6000 * (k - 1));
    } else {
      StampedCount(fs, ts);
      SmallStamp(ts);
    }
  }

  lemma Fifteenths(k: nat)
    ensures k * 90000 / 15 == 6000 * k
  {
  }

  lemma Later(ts: nat, d: nat)
    ensures ((ts + FRAME_TICKS) % TS_MOD + d) % 0x1_0000_0000 == (ts + 6000 + d) % 0x1_0000_0000
  {
  }

  lemma SmallStamp(ts: nat)
    requires ts < 0x1_0000_0000
    ensures ts % 0x1_0000_0000 == ts
  {
  }

  lemma {:induction false} StampedCount(fs: seq<seq<Nalu>>, ts: nat)
    ensures |Stamped(fs, ts)| == |fs|
    decreases |fs|
  {
    if fs != [] {
      StampedCount(fs[1..], (ts + FRAME_TICKS) % TS_MOD);
    }
  }
}
