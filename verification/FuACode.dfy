/** send_h264_nalu_to_client and the frame loop around it, proved against the packets they should send. */
module FuACode {
  import opened Bytes
  import opened FuA

  /** The fragment for the bytes from `offset` on, and what is left after it. */
  lemma FragmentsTurn(hdr: Byte, body: seq<Byte>, offset: nat, first: bool, num: nat, ts: nat, last: bool)
    requires offset < |body|
    ensures var rest := body[offset..];
            var chunk := if |rest| > CHUNK then CHUNK else |rest|;
            var end := offset + chunk >= |body|;
            var p := Packet(num, ts, end && last, Fragment(hdr, first, end, body[offset..offset + chunk]));
            Packets(Fragments(hdr, rest, first), num, ts, last) ==
            [p] + (if end then [] else Packets(Fragments(hdr, body[offset + chunk..], false), (num + 1) % SEQ_MOD, ts, last))
  {
    hide Fragment;
    var rest := body[offset..];
    if |rest| > CHUNK {
      assert rest[..CHUNK] == body[offset..offset + CHUNK];
      assert rest[CHUNK..] == body[offset + CHUNK..];
      var p := Fragment(hdr, first, false, rest[..CHUNK]);
      var more := Fragments(hdr, rest[CHUNK..], false);
      assert Fragments(hdr, rest, first) == [p] + more;
      assert ([p] + more)[1..] == more;
    } else {
      assert body[offset..offset + |rest|] == rest;
      assert Fragments(hdr, rest, first)[1..] == [];
    }
  }

  lemma Move<T>(a: seq<T>, x: T, b: seq<T>)
    ensures a + ([x] + b) == (a + [x]) + b
  {
  }

  /** The per-client video counters, and the packets sent. */
  class VideoSender {
    var seqno: nat
    var ts: nat
    var sent: seq<Packet>

    ghost predicate Valid()
      reads this
    {
      seqno < SEQ_MOD && ts < TS_MOD
    }

    constructor (seqno: nat, ts: nat)
      requires seqno < SEQ_MOD && ts < TS_MOD
      ensures Valid() && this.seqno == seqno && this.ts == ts && sent == []
    {
      this.seqno, this.ts, sent := seqno, ts, [];
    }

    method Send(marker: bool, payload: seq<Byte>)
      requires Valid()
      modifies this`seqno, this`sent
      ensures Valid() && seqno == (old(seqno) + 1) % SEQ_MOD
      ensures sent == old(sent) + [Packet(old(seqno), ts, marker, payload)]
    {
      sent := sent + [Packet(seqno, ts, marker, payload)];
      seqno := (seqno + 1) % SEQ_MOD;
    }

    /** The fragmentation loop over `offset`. */
    method SendFragments(hdr: Byte, body: seq<Byte>, isLast: bool)
      requires Valid() && body != []
      modifies this`seqno, this`sent
      ensures Valid()
      ensures sent == old(sent) + Packets(Fragments(hdr, body, true), old(seqno), ts, isLast)
      ensures seqno == Advance(old(seqno), |Fragments(hdr, body, true)|)
    {
      hide Fragments, Packets, Advance, Fragment;
      var offset, first := 0, true;
      ghost var all := sent + Packets(Fragments(hdr, body, true), seqno, ts, isLast);
      ghost var s0, n0 := sent, seqno;
      assert body[0..] == body;
      Start(seqno);
      while offset < |body|
        invariant 0 <= offset <= |body| && Valid()
        invariant |sent| >= |s0| && seqno == Advance(n0, |sent| - |s0|)
        invariant all == sent + (if offset == |body| then []
                                 else Packets(Fragments(hdr, body[offset..], first), seqno, ts, isLast))
        invariant ts == old(ts)
      {
        var chunk := |body| - offset;
        if chunk > MTU - 2 {
          chunk := MTU - 2;
        }
        var end := offset + chunk >= |body|;
        FragmentsTurn(hdr, body, offset, first, seqno, ts, isLast);
        ghost var p := Packet(seqno, ts, end && isLast, Fragment(hdr, first, end, body[offset..offset + chunk]));
        Move(sent, p, if end then [] else Packets(Fragments(hdr, body[offset + chunk..], false), (seqno + 1) % SEQ_MOD, ts, isLast));
        NextNumber(n0, |sent| - |s0|);
        Send(end && isLast, Fragment(hdr, first, end, body[offset..offset + chunk]));
        offset, first := offset + chunk, false;
      }
    }

    /** send_h264_nalu_to_client. */
    method SendNalu(n: Nalu, isLast: bool)
      requires Valid()
      modifies this`seqno, this`sent
      ensures Valid()
      ensures sent == old(sent) + NaluPackets(n, old(seqno), ts, isLast)
      ensures seqno == Advance(old(seqno), |NaluPackets(n, old(seqno), ts, isLast)|)
    {
      hide Fragments;
      if |n| < 1 {
        assert sent + [] == sent;
        return;
      }
      if |n| <= MTU {
        assert Payloads(n) == [n] && [n][1..] == [];
        Send(isLast, n);
      } else {
        SendFragments(n[0], n[1..], isLast);
      }
    }

    /** One frame to this client: every unit, then the timestamp moves on. */
    method SendFrame(ns: seq<Nalu>)
      requires Valid()
      modifies this
      ensures Valid()
      ensures sent == old(sent) + FramePackets(ns, old(seqno), old(ts))
      ensures seqno == Advance(old(seqno), |FramePackets(ns, old(seqno), old(ts))|)
      ensures ts == (old(ts) + FRAME_TICKS) % TS_MOD
    {
      hide NaluPackets, Advance;
      var i := 0;
      ghost var all := sent + FramePackets(ns, seqno, ts);
      ghost var s0, n0 := sent, seqno;
      assert ns[0..] == ns;
      Start(seqno);
      while i < |ns|
        invariant 0 <= i <= |ns| && Valid()
        invariant |sent| >= |s0| && seqno == Advance(n0, |sent| - |s0|)
        invariant all == sent + FramePackets(ns[i..], seqno, ts)
        invariant ts == old(ts)
      {
        ghost var ps := NaluPackets(ns[i], seqno, ts, i == |ns| - 1);
        ghost var more := FramePackets(ns[i + 1..], Advance(seqno, |ps|), ts);
        assert ns[i..][1..] == ns[i + 1..];
        assert sent + (ps + more) == (sent + ps) + more;
        AdvanceOn(n0, |sent| - |s0|, |ps|);
        SendNalu(ns[i], i == |ns| - 1);
        i := i + 1;
      }
      assert sent + [] == sent;
      ts := (ts + FRAME_TICKS) % TS_MOD;
    }
  }

  lemma Start(num: nat)
    requires num < SEQ_MOD
    ensures Advance(num, 0) == num
  {
  }

  lemma NextNumber(num: nat, k: nat)
    ensures (Advance(num, k) + 1) % SEQ_MOD == Advance(num, k + 1)
  {
    AdvanceOn(num, k, 1);
  }
}
