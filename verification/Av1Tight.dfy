/**
 How full the packets of the AV1 packetizer are: when a unit goes in whole, when it goes without a
 prefix, and how many bytes a packet may leave unused. The bounds of the Av1Layout module would also
 hold of a packetizer that sends one byte at a time; these would not.
 */
module Av1Tight {
  import opened Bytes
  import opened Av1Layout
  import Av1Obu
  import Av1Packetizer
  import Av1Receiver
  import Leb128

  /** The last unit of the buffer, among the first three elements of a packet: no prefix, as much as fits. */
  lemma LastUnprefixed(cur: nat, room: nat, index: nat)
    requires cur >= 1 && room >= 1 && 1 <= index <= 3
    ensures NextFragment(cur, room, index, true) == Fragment(false, if cur <= room then cur else room)
  {
  }

  /**
   A unit goes in whole with a prefix exactly when both fit and leave room for another element: one byte,
   two where that element would need a prefix of its own; from the fourth element on, when both fit.
   */
  lemma WholeWithPrefix(cur: nat, room: nat, index: nat, last: bool)
    requires cur >= 1 && index >= 1
    ensures NextFragment(cur, room, index, last) == Fragment(true, cur) <==>
            if index > 3 then cur + Leb128.Size(cur) <= room
            else !last && cur + Leb128.Size(cur) + (if index == 3 then 2 else 1) <= room
  {
    hide Leb128.Size;
    Leb128.SizeAtMostValue(cur);
    if room >= 1 {
      PrefixFits(cur, room);
    }
  }

  /** What an element leaves unused when it ends its packet. */
  lemma FragmentTight(cur: nat, room: nat, index: nat, last: bool)
    requires cur >= 1
    ensures var f := NextFragment(cur, room, index, last);
            && (f.len == 0 ==> room < 2)
            && (f.len > 0 && !f.prefixed ==> f.len == Min(cur, room))
            && (f.len > 0 && !f.prefixed && !last ==> room <= f.len + Leb128.Size(cur) + 1)
  {
    hide Leb128.Size;
    FragmentFits(cur, room, index, last);
    if room > cur {
      Leb128.SizeAtMostValue(cur);
      PrefixFits(cur, room);
      if room < cur + Leb128.Size(cur) {
        StraddleFacts(cur, room);
      }
    }
  }

  /** A packet that does not end the work lacks at most a prefix and a byte of being full. */
  lemma {:induction false} FillTight(t: Todo, room: nat, count: nat, cap: nat)
    requires t.Valid() && room <= cap
    ensures var r := Fill(t, room, count);
            !r.failed && r.todo.cur != [] ==> room <= |Payload(r.elems)| + Leb128.Size(cap) + 1
    decreases |t.rest|, |t.cur|
  {
    hide NextFragment, ElementBytes, FragmentSize, Leb128.Size, Fill, FillSplits, Straddles;
    if t.cur == [] {
      FillNothing(t, room, count);
    } else {
      var f := NextFragment(|t.cur|, room, count + 1, t.Last());
      FillStep(t, room, count, f);
      FragmentTight(|t.cur|, room, count + 1, t.Last());
      if f.len > 0 {
        var e := Element(f.prefixed, t.cur[..f.len]);
        ElementSize(f, t.cur);
        ConsDatas(e, []);
        assert [e] + [] == [e];
        if Continues(t, f) {
          FillTight(t.Advance(f.len), room - FragmentSize(f), count + 1, cap);
          ConsDatas(e, Fill(t.Advance(f.len), room - FragmentSize(f), count + 1).elems);
        } else if !f.prefixed {
          Unprefixed(f);
          if |t.cur| <= room {
            Leb128.SizeMonotone(|t.cur|, cap);
          }
        }
      }
    }
  }

  lemma Unprefixed(f: Fragment)
    requires !f.prefixed
    ensures FragmentSize(f) == f.len
  {
  }

  /** Every packet but the last lacks at most a prefix and a byte. */
  ghost predicate Tight(ps: seq<Packet>, cap: nat) {
    forall i :: 0 <= i < |ps| - 1 ==> cap <= |Payload(ps[i].elems)| + Leb128.Size(cap) + 1
  }

  lemma {:induction false} RunTight(t: Todo, cap: nat, marker: bool, z: bool, n: bool)
    requires t.Valid() && cap >= 1
    ensures t.failure.None? ==> Tight(Run(t, cap, marker, z, n).packets, cap)
    decreases |t.rest|, |t.cur|
  {
    hide Fill, Payload, WField, Leb128.Size;
    if t.cur != [] && t.failure.None? {
      var r := Fill(t, cap, 0);
      FillProgress(t, cap, 0);
      FillTight(t, cap, 0, cap);
      RunTight(r.todo, cap, marker, r.open, false);
      var more := Run(r.todo, cap, marker, r.open, false).packets;
      if r.todo.cur == [] {
        assert more == [];
      }
    }
  }

  /** For every well-formed buffer and packet size. */
  lemma PacketsTight(buf: seq<Byte>, maxlen: nat, marker: bool, newp: bool)
    requires Av1Obu.WellFormed(buf) && maxlen >= 2
    ensures Tight(Av1Packetizer.Expected(buf, maxlen, marker, newp), maxlen - 1)
  {
    hide Run, Tight, Av1Obu.ScanBuffer;
    var s := Av1Obu.ScanBuffer(buf);
    Av1Packetizer.StartBytes(s);
    RunTight(Av1Packetizer.Start(s), maxlen - 1, marker, false, newp);
  }

  /** The aggregation header: Z and Y in the two high bits, two bits of W, N, and three bits reserved. */
  lemma AggrLayout(z: bool, y: bool, w: nat, n: bool)
    requires w <= 3
    ensures var v: int := Av1Receiver.EncodeAggr(z, y, w, n);
            && (z <==> v >= 128) && (y <==> v % 128 >= 64) && w == v % 64 / 16 && (n <==> v % 16 >= 8) && v % 8 == 0
  {
  }
}
