/**
 The receive side of an RTSP connection (rtsp_server.c): requests and interleaved RTP frames cut out
 of a TCP byte stream (section 10.12 of RFC 2326), whatever segments the stream arrives in.
 */
module Rtsp {
  import opened Bytes

  const LIMIT := 16384
  const DOLLAR: Byte := 36
  const BLANK: seq<Byte> := [13, 10, 13, 10]

  /** The fields of the client that the framing loop reads, and all the others. */
  datatype Session<S> = Session(backchannel: bool, channel: Byte, speaker: bool, rest: S)

  /** dispatch_rtsp: the new session, and whether a TEARDOWN has freed the client. */
  type Dispatch<!S> = (Session<S>, seq<Byte>) -> (Session<S>, bool)

  datatype Event = Request(bytes: seq<Byte>) | Play(pcmu: seq<Byte>)

  // ---------------------------------------------------------------- units of the stream

  function U16(hi: Byte, lo: Byte): (n: nat)
    ensures n < 0x10000
  {
    hi * 256 + lo
  }

  /** strstr for the blank line from position i: the end of the request, or 0. A NUL ends the search. */
  function RequestEnd(buf: seq<Byte>, i: nat): (n: nat)
    ensures n == 0 || i + 4 <= n <= |buf|
    decreases |buf| - i
  {
    if i + 4 > |buf| || buf[i] == 0 then 0
    else if buf[i..i + 4] == BLANK then i + 4
    else RequestEnd(buf, i + 1)
  }

  /** The length of the first unit when all of it has arrived, else 0. */
  function NextUnit(buf: seq<Byte>): (n: nat)
    ensures n == 0 || 4 <= n <= |buf|
  {
    if buf == [] then 0
    else if buf[0] == DOLLAR then
      if |buf| < 4 then 0
      else
        var total := 4 + U16(buf[2], buf[3]);
        if |buf| < total then 0 else total
    else RequestEnd(buf, 0)
  }

  /** The length of the RTP header at the start of a frame of at least 12 bytes. */
  function RtpHeader(rtp: seq<Byte>): (n: nat)
    requires |rtp| >= 12
  {
    var n := 12 + rtp[0] % 16 * 4;
    if rtp[0] / 16 % 2 == 1 && |rtp| >= n + 4 then
      n + 4 + U16(rtp[n + 2], rtp[n + 3]) * 4
    else n
  }

  function Payload<S>(s: Session<S>, unit: seq<Byte>): (es: seq<Event>)
    requires |unit| >= 4
  {
    var rtp := unit[4..];
    if s.backchannel && unit[1] == s.channel && |rtp| >= 12 && |rtp| > RtpHeader(rtp) && s.speaker then
      [Play(rtp[RtpHeader(rtp)..])]
    else []
  }

  /** What one complete unit does. */
  function Handle<S>(s: Session<S>, unit: seq<Byte>, dispatch: Dispatch<S>): (r: (Session<S>, seq<Event>, bool))
    requires |unit| >= 4
  {
    if unit[0] == DOLLAR then (s, Payload(s, unit), false)
    else
      var (s', freed) := dispatch(s, unit);
      (s', [Request(unit)], freed)
  }

  /** Where handling everything that is complete in a buffer leads. */
  datatype Outcome<S> = Outcome(session: Session<S>, buf: seq<Byte>, events: seq<Event>, closed: bool)

  function Process<S>(s: Session<S>, buf: seq<Byte>, dispatch: Dispatch<S>): (o: Outcome<S>)
    decreases |buf|
  {
    var n := NextUnit(buf);
    if n == 0 then Outcome(s, buf, [], false)
    else
      var (s', es, freed) := Handle(s, buf[..n], dispatch);
      if freed then Outcome(s', [], es, true)
      else
        var o := Process(s', buf[n..], dispatch);
        o.(events := es + o.events)
  }

  // ---------------------------------------------------------------- segmentation

  lemma {:induction false} RequestEndStable(a: seq<Byte>, b: seq<Byte>, i: nat)
    requires RequestEnd(a, i) != 0
    ensures RequestEnd(a + b, i) == RequestEnd(a, i)
    decreases |a| - i
  {
    assert (a + b)[i..i + 4] == a[i..i + 4];
    if a[i..i + 4] != BLANK {
      RequestEndStable(a, b, i + 1);
    }
  }

  /** Bytes that come later do not change where a complete unit ends. */
  lemma NextUnitStable(a: seq<Byte>, b: seq<Byte>)
    requires NextUnit(a) != 0
    ensures NextUnit(a + b) == NextUnit(a)
  {
    if a[0] != DOLLAR {
      RequestEndStable(a, b, 0);
    }
  }

  /** The rest of the stream processed after what an earlier part has led to. */
  function Continue<S>(o: Outcome<S>, more: seq<Byte>, dispatch: Dispatch<S>): (r: Outcome<S>) {
    if o.closed then o
    else
      var r := Process(o.session, o.buf + more, dispatch);
      r.(events := o.events + r.events)
  }

  /** Processing may be cut anywhere. */
  lemma {:induction false} ProcessSplit<S>(s: Session<S>, a: seq<Byte>, b: seq<Byte>, dispatch: Dispatch<S>)
    ensures Process(s, a + b, dispatch) == Continue(Process(s, a, dispatch), b, dispatch)
    decreases |a|
  {
    hide NextUnit, Handle;
    var n := NextUnit(a);
    if n != 0 {
      NextUnitStable(a, b);
      assert (a + b)[..n] == a[..n] && (a + b)[n..] == a[n..] + b;
      var (s', es, freed) := Handle(s, a[..n], dispatch);
      if !freed {
        ProcessSplit(s', a[n..], b, dispatch);
        var o := Process(s', a[n..], dispatch);
        if !o.closed {
          Assoc(es, o.events, Process(o.session, o.buf + b, dispatch).events);
        }
      }
    } else {
      var r := Process(s, a + b, dispatch);
      assert [] + r.events == r.events;
    }
  }

  // ---------------------------------------------------------------- the connection

  /** rtsp_recv_handler for one segment; nothing is called any more once the client is freed. */
  function Receive<S>(o: Outcome<S>, seg: seq<Byte>, dispatch: Dispatch<S>): (r: Outcome<S>) {
    if o.closed then o
    else if |o.buf| + |seg| > LIMIT then o.(buf := [], closed := true)
    else Continue(o, seg, dispatch)
  }

  function ReceiveAll<S>(o: Outcome<S>, segs: seq<seq<Byte>>, dispatch: Dispatch<S>): (r: Outcome<S>)
    decreases |segs|
  {
    if segs == [] then o else ReceiveAll(Receive(o, segs[0], dispatch), segs[1..], dispatch)
  }

  /** A segment arrives for which the buffer is not large enough. */
  ghost predicate Overflows<S>(o: Outcome<S>, segs: seq<seq<Byte>>, dispatch: Dispatch<S>)
    decreases |segs|
  {
    segs != [] && !o.closed &&
    (|o.buf| + |segs[0]| > LIMIT || Overflows(Receive(o, segs[0], dispatch), segs[1..], dispatch))
  }

  /** Nothing in the buffer is complete: what holds between two segments. */
  ghost predicate Settled<S>(o: Outcome<S>) {
    o.closed || NextUnit(o.buf) == 0
  }

  lemma {:induction false} ProcessSettles<S>(s: Session<S>, buf: seq<Byte>, dispatch: Dispatch<S>)
    ensures Settled(Process(s, buf, dispatch))
    decreases |buf|
  {
    hide Handle;
    var n := NextUnit(buf);
    if n != 0 {
      ProcessSettles(Handle(s, buf[..n], dispatch).0, buf[n..], dispatch);
    }
  }

  lemma ContinueTwice<S>(o: Outcome<S>, a: seq<Byte>, b: seq<Byte>, dispatch: Dispatch<S>)
    ensures Continue(o, a + b, dispatch) == Continue(Continue(o, a, dispatch), b, dispatch)
  {
    hide Process;
    if !o.closed {
      Assoc(o.buf, a, b);
      ProcessSplit(o.session, o.buf + a, b, dispatch);
      var r := Process(o.session, o.buf + a, dispatch);
      if !r.closed {
        Assoc(o.events, r.events, Process(r.session, r.buf + b, dispatch).events);
      }
    }
  }

  lemma ContinueNothing<S>(o: Outcome<S>, dispatch: Dispatch<S>)
    requires Settled(o)
    ensures Continue(o, [], dispatch) == o
  {
    assert o.buf + [] == o.buf;
    assert o.events + [] == o.events;
  }

  lemma ContinueSettles<S>(o: Outcome<S>, seg: seq<Byte>, dispatch: Dispatch<S>)
    ensures Settled(Continue(o, seg, dispatch))
  {
    if !o.closed {
      ProcessSettles(o.session, o.buf + seg, dispatch);
    }
  }

  /**
   For every way of cutting the stream into segments, the connection ends in the session, with the
   buffer and the events of one-shot delivery, unless the buffer overflows.
   */
  lemma {:induction false} AnySegmentation<S>(o: Outcome<S>, segs: seq<seq<Byte>>, dispatch: Dispatch<S>)
    requires Settled(o) && !Overflows(o, segs, dispatch)
    ensures ReceiveAll(o, segs, dispatch) == Continue(o, Flatten(segs), dispatch)
    decreases |segs|
  {
    hide Continue, NextUnit, Settled;
    if segs == [] {
      ContinueNothing(o, dispatch);
    } else if o.closed {
      ClosedStays(o, segs, dispatch);
    } else {
      var o' := Receive(o, segs[0], dispatch);
      ContinueSettles(o, segs[0], dispatch);
      AnySegmentation(o', segs[1..], dispatch);
      ContinueTwice(o, segs[0], Flatten(segs[1..]), dispatch);
    }
  }

  lemma {:induction false} ClosedStays<S>(o: Outcome<S>, segs: seq<seq<Byte>>, dispatch: Dispatch<S>)
    requires o.closed
    ensures ReceiveAll(o, segs, dispatch) == o && Continue(o, Flatten(segs), dispatch) == o
    decreases |segs|
  {
    if segs != [] {
      ClosedStays(o, segs[1..], dispatch);
    }
  }

  ghost predicate Prefix<T>(a: seq<T>, b: seq<T>) {
    |a| <= |b| && b[..|a|] == a
  }

  lemma ContinueExtends<S>(o: Outcome<S>, more: seq<Byte>, dispatch: Dispatch<S>)
    ensures Prefix(o.events, Continue(o, more, dispatch).events)
  {
  }

  /** When the buffer does overflow, the events are still the first ones of one-shot delivery. */
  lemma {:induction false} OverflowPrefix<S>(o: Outcome<S>, segs: seq<seq<Byte>>, dispatch: Dispatch<S>)
    requires Settled(o) && Overflows(o, segs, dispatch)
    ensures ReceiveAll(o, segs, dispatch).closed
    ensures Prefix(ReceiveAll(o, segs, dispatch).events, Continue(o, Flatten(segs), dispatch).events)
    decreases |segs|
  {
    hide Continue, NextUnit, Settled;
    if |o.buf| + |segs[0]| > LIMIT {
      ClosedStays(Receive(o, segs[0], dispatch), segs[1..], dispatch);
      ContinueExtends(o, Flatten(segs), dispatch);
    } else {
      ContinueSettles(o, segs[0], dispatch);
      ContinueTwice(o, segs[0], Flatten(segs[1..]), dispatch);
      OverflowPrefix(Receive(o, segs[0], dispatch), segs[1..], dispatch);
    }
  }

  /** A frame that announces more than the limit is never delivered: it can only close the connection. */
  lemma {:induction false} OversizeNeverDelivered<S>(o: Outcome<S>, segs: seq<seq<Byte>>, dispatch: Dispatch<S>)
    requires !o.closed && 4 <= |o.buf| <= 16384 && o.buf[0] == 36 && 4 + U16(o.buf[2], o.buf[3]) > 16384
    ensures ReceiveAll(o, segs, dispatch).events == o.events
    ensures Overflows(o, segs, dispatch) <==> |o.buf| + |Flatten(segs)| > 16384
    decreases |segs|
  {
    if segs != [] {
      var buf := o.buf + segs[0];
      if |buf| > LIMIT {
        ClosedStays(Receive(o, segs[0], dispatch), segs[1..], dispatch);
      } else {
        assert NextUnit(buf) == 0;
        assert Receive(o, segs[0], dispatch) == o.(buf := buf) by {
          assert o.events + [] == o.events;
        }
        OversizeNeverDelivered(o.(buf := buf), segs[1..], dispatch);
      }
    }
  }

  ghost predicate BlankAt(buf: seq<Byte>, k: nat) {
    k + 4 <= |buf| && buf[k..k + 4] == [13, 10, 13, 10]
  }

  /** The first blank line at or after `from` is at k, and no NUL is before it. */
  ghost predicate FirstBlank(buf: seq<Byte>, from: nat, k: nat) {
    from <= k && BlankAt(buf, k) && forall j :: from <= j < k ==> buf[j] != 0 && !BlankAt(buf, j)
  }

  /** A request ends exactly there. */
  lemma {:induction false} RequestEndIff(buf: seq<Byte>, from: nat, k: nat)
    ensures RequestEnd(buf, from) == k + 4 <==> FirstBlank(buf, from, k)
    decreases |buf| - from
  {
    if from + 4 <= |buf| {
      assert buf[from..from + 4][0] == buf[from];
      if buf[from] != 0 && buf[from..from + 4] != BLANK {
        RequestEndIff(buf, from + 1, k);
        assert !BlankAt(buf, from);
      } else if buf[from] != 0 {
        assert BlankAt(buf, from);
      }
    }
  }

  /** A stream that begins with a request has a complete unit if and only if it has such a blank line. */
  lemma RequestComplete(buf: seq<Byte>)
    requires buf != [] && buf[0] != DOLLAR
    ensures NextUnit(buf) != 0 <==> exists k: nat :: FirstBlank(buf, 0, k)
  {
    hide FirstBlank;
    var n := RequestEnd(buf, 0);
    if n != 0 {
      RequestEndIff(buf, 0, n - 4);
    }
    if k: nat :| FirstBlank(buf, 0, k) {
      RequestEndIff(buf, 0, k);
    }
  }

  /** A NUL that no blank line precedes. */
  ghost predicate NulFirst(buf: seq<Byte>, i: nat) {
    i < |buf| && buf[i] == 0 && forall k :: 0 <= k <= i - 4 ==> !BlankAt(buf, k)
  }

  lemma NulFirstStays(buf: seq<Byte>, more: seq<Byte>, i: nat)
    requires NulFirst(buf, i)
    ensures NulFirst(buf + more, i)
  {
    forall k | 0 <= k <= i - 4 ensures !BlankAt(buf + more, k) {
      assert (buf + more)[k..k + 4] == buf[k..k + 4] && !BlankAt(buf, k);
    }
  }

  lemma NulNotAfter(buf: seq<Byte>, i: nat, k: nat)
    requires NulFirst(buf, i)
    ensures !FirstBlank(buf, 0, k)
  {
    if k <= i < k + 4 <= |buf| {
      assert buf[k..k + 4][i - k] == buf[i];
    }
  }

  lemma NulHidesBlank(buf: seq<Byte>, i: nat)
    requires NulFirst(buf, i) && buf[0] != DOLLAR
    ensures NextUnit(buf) == 0
  {
    var n := RequestEnd(buf, 0);
    if n != 0 {
      RequestEndIff(buf, 0, n - 4);
      NulNotAfter(buf, i, n - 4);
    }
  }

  /** With a NUL before the blank line of a request no event ever follows, however the stream goes on. */
  lemma {:induction false} NulStalls<S>(o: Outcome<S>, segs: seq<seq<Byte>>, dispatch: Dispatch<S>, i: nat)
    requires !o.closed && |o.buf| <= 16384 && NulFirst(o.buf, i) && o.buf[0] != DOLLAR
    ensures ReceiveAll(o, segs, dispatch).events == o.events
    ensures Overflows(o, segs, dispatch) <==> |o.buf| + |Flatten(segs)| > 16384
    decreases |segs|
  {
    hide NulFirst, NextUnit;
    NulFirstInside(o.buf, i);
    if segs != [] {
      var buf := o.buf + segs[0];
      if |buf| > LIMIT {
        ClosedStays(Receive(o, segs[0], dispatch), segs[1..], dispatch);
      } else {
        NulFirstStays(o.buf, segs[0], i);
        NulHidesBlank(buf, i);
        assert Receive(o, segs[0], dispatch) == o.(buf := buf) by {
          assert o.events + [] == o.events;
        }
        NulStalls(o.(buf := buf), segs[1..], dispatch, i);
      }
    }
  }

  lemma NulFirstInside(buf: seq<Byte>, i: nat)
    requires NulFirst(buf, i)
    ensures i < |buf|
  {
  }

  // ---------------------------------------------------------------- what a client sends

  /** An RTP packet: first byte without the count and extension bits, 11 more bytes, and its parts. */
  datatype Rtp = Rtp(flags: nat, fixed: seq<Byte>, csrcs: seq<seq<Byte>>, ext: Option<(seq<Byte>, seq<seq<Byte>>)>, payload: seq<Byte>)

  ghost predicate Words(ws: seq<seq<Byte>>) {
    forall w :: w in ws ==> |w| == 4
  }

  ghost predicate RtpOk(p: Rtp) {
    && p.flags < 8 && |p.fixed| == 11 && |p.csrcs| < 16 && Words(p.csrcs)
    && (p.ext.Some? ==> |p.ext.value.0| == 2 && |p.ext.value.1| < 0x10000 && Words(p.ext.value.1))
  }

  function ExtBytes(p: Rtp): (r: seq<Byte>)
    requires p.ext.Some? ==> |p.ext.value.1| < 0x10000
  {
    if p.ext.None? then [] else p.ext.value.0 + Be16(|p.ext.value.1|) + Flatten(p.ext.value.1)
  }

  /** Section 5.1 of RFC 3550. */
  function RtpBytes(p: Rtp): (r: seq<Byte>)
    requires p.flags < 8 && |p.csrcs| < 16 && (p.ext.Some? ==> |p.ext.value.1| < 0x10000)
  {
    [p.flags * 32 + (if p.ext.Some? then 16 else 0) + |p.csrcs|] + p.fixed + Flatten(p.csrcs) + ExtBytes(p) + p.payload
  }

  lemma {:induction false} WordsLength(ws: seq<seq<Byte>>)
    requires Words(ws)
    ensures |Flatten(ws)| == 4 * |ws|
  {
    if ws != [] {
      assert ws[0] in ws;
      WordsLength(ws[1..]);
    }
  }

  lemma ExtHeader(p: Rtp, before: seq<Byte>)
    requires RtpOk(p) && p.ext.Some?
    ensures |ExtBytes(p)| == 4 + 4 * |p.ext.value.1|
    ensures var rtp := before + ExtBytes(p) + p.payload;
            var n := |before|;
            |rtp| >= n + 4 && U16(rtp[n + 2], rtp[n + 3]) == |p.ext.value.1|
  {
    var (profile, words) := p.ext.value;
    WordsLength(words);
    var e := ExtBytes(p);
    assert e[2] == |words| / 256 && e[3] == |words| % 256;
    var rtp := before + e + p.payload;
    assert rtp[|before| + 2] == e[2] && rtp[|before| + 3] == e[3];
  }

  lemma FirstByte(flags: nat, x: nat, cc: nat)
    requires flags < 8 && x < 2 && cc < 16
    ensures var b := flags * 32 + x * 16 + cc; 0 <= b < 256 && b % 16 == cc && b / 16 % 2 == x
  {
    var b := flags * 32 + x * 16 + cc;
    assert b == 16 * (flags * 2 + x) + cc;
    assert b / 16 == flags * 2 + x;
  }

  /** The header length found is that of the packet's header, with its sources and extension. */
  lemma RtpStripped(p: Rtp)
    requires RtpOk(p)
    ensures var rtp := RtpBytes(p);
            |rtp| >= 12 && RtpHeader(rtp) <= |rtp| && rtp[RtpHeader(rtp)..] == p.payload
  {
    hide Flatten;
    var x := if p.ext.Some? then 1 else 0;
    FirstByte(p.flags, x, |p.csrcs|);
    WordsLength(p.csrcs);
    var first: Byte := p.flags * 32 + x * 16 + |p.csrcs|;
    assert x * 16 == if p.ext.Some? then 16 else 0;
    var before := [first] + p.fixed + Flatten(p.csrcs);
    var rtp := RtpBytes(p);
    assert rtp == before + ExtBytes(p) + p.payload;
    assert rtp[0] == first;
    if p.ext.Some? {
      ExtHeader(p, before);
    }
    assert RtpHeader(rtp) == |before + ExtBytes(p)|;
    assert rtp[|before + ExtBytes(p)|..] == p.payload;
  }

  /** What a client may put on the connection. */
  datatype Item =
    | Ask(text: seq<Byte>)                 // a request, up to and with its blank line
    | Sound(p: Rtp)                        // RTP on the backchannel
    | Other(channel: Byte, data: seq<Byte>)  // a frame on another channel

  ghost predicate AskOk(text: seq<Byte>) {
    && |text| >= 4 && text[0] != 36 && text[|text| - 4..] == [13, 10, 13, 10]
    && (forall i :: 0 <= i < |text| - 4 ==> text[i] != 0 && text[i..i + 4] != [13, 10, 13, 10])
  }

  /** Section 10.12 of RFC 2326: a dollar sign, the channel, two bytes of length, and the data. */
  function Interleaved(channel: Byte, data: seq<Byte>): (r: seq<Byte>)
    requires |data| < 0x10000
  {
    [36, channel] + Be16(|data|) + data
  }

  ghost predicate ItemOk(channel: Byte, i: Item) {
    match i
    case Ask(text) => AskOk(text)
    case Sound(p) => RtpOk(p) && |RtpBytes(p)| < 0x10000
    case Other(c, data) => c != channel && |data| < 0x10000
  }

  ghost function ItemBytes(channel: Byte, i: Item): (r: seq<Byte>)
    requires ItemOk(channel, i)
  {
    match i
    case Ask(text) => text
    case Sound(p) => Interleaved(channel, RtpBytes(p))
    case Other(c, data) => Interleaved(c, data)
  }

  lemma {:induction false} AskEnds(text: seq<Byte>, more: seq<Byte>, i: nat)
    requires AskOk(text) && i <= |text| - 4
    ensures RequestEnd(text + more, i) == |text|
    decreases |text| - i
  {
    var buf := text + more;
    assert buf[i..i + 4] == text[i..i + 4];
    assert buf[i] == text[i..i + 4][0];
    if i < |text| - 4 {
      AskEnds(text, more, i + 1);
    }
  }

  lemma InterleavedUnit(channel: Byte, data: seq<Byte>, more: seq<Byte>)
    requires |data| < 0x10000
    ensures NextUnit(Interleaved(channel, data) + more) == 4 + |data| == |Interleaved(channel, data)|
    ensures Interleaved(channel, data)[4..] == data
  {
    var buf := Interleaved(channel, data) + more;
    assert buf[0] == DOLLAR && buf[2] == |data| / 256 && buf[3] == |data| % 256;
  }

  /** A unit on the wire is recognised for what it is, whatever follows it. */
  lemma ItemUnit(channel: Byte, i: Item, more: seq<Byte>)
    requires ItemOk(channel, i)
    ensures var b := ItemBytes(channel, i); |b| >= 4 && NextUnit(b + more) == |b|
  {
    match i
    case Ask(text) =>
      AskEnds(text, more, 0);
    case Sound(p) => InterleavedUnit(channel, RtpBytes(p), more);
    case Other(c, data) => InterleavedUnit(c, data, more);
  }

  ghost predicate AllOk(channel: Byte, items: seq<Item>) {
    forall i :: i in items ==> ItemOk(channel, i)
  }

  ghost function Wire(channel: Byte, items: seq<Item>): (r: seq<Byte>)
    requires AllOk(channel, items)
  {
    if items == [] then [] else ItemBytes(channel, items[0]) + Wire(channel, items[1..])
  }

  /** What the server should make of the items: every request, and every sound worth playing. */
  function Meaning(items: seq<Item>): (es: seq<Event>) {
    if items == [] then []
    else
      (match items[0]
       case Ask(text) => [Request(text)]
       case Sound(p) => if p.payload != [] then [Play(p.payload)] else []
       case Other(_, _) => []) + Meaning(items[1..])
  }

  /** Requests leave the backchannel as it is, and none tears the session down. */
  ghost predicate Steady<S(!new)>(channel: Byte, dispatch: Dispatch<S>) {
    forall s, text :: Ready(s, channel) ==> Ready(dispatch(s, text).0, channel) && !dispatch(s, text).1
  }

  ghost predicate Ready<S>(s: Session<S>, channel: Byte) {
    s.backchannel && s.channel == channel && s.speaker
  }

  lemma HandleItem<S(!new)>(s: Session<S>, channel: Byte, i: Item, dispatch: Dispatch<S>)
    requires Ready(s, channel) && Steady(channel, dispatch) && ItemOk(channel, i)
    ensures var b := ItemBytes(channel, i);
            |b| >= 4 &&
            var (s', es, freed) := Handle(s, b, dispatch);
            Ready(s', channel) && !freed && es + [] == Meaning([i])
  {
    hide RtpBytes;
    var b := ItemBytes(channel, i);
    ItemUnit(channel, i, []);
    assert [i][1..] == [];
    match i
    case Ask(text) =>
      assert Ready(dispatch(s, text).0, channel);
    case Sound(p) =>
      InterleavedUnit(channel, RtpBytes(p), []);
      RtpStripped(p);
      assert b[1] == channel;
    case Other(c, data) =>
      assert b[1] == c;
  }

  lemma MeaningStep(items: seq<Item>)
    requires items != []
    ensures Meaning(items) == Meaning([items[0]]) + Meaning(items[1..])
  {
    assert [items[0]][1..] == [];
  }

  /** Framing round trip: the server gets out of the stream exactly what the client has put in. */
  lemma {:induction false} FramingRoundTrip<S(!new)>(s: Session<S>, channel: Byte, items: seq<Item>, dispatch: Dispatch<S>)
    requires Ready(s, channel) && Steady(channel, dispatch) && AllOk(channel, items)
    ensures var o := Process(s, Wire(channel, items), dispatch);
            o.events == Meaning(items) && o.buf == [] && !o.closed
    decreases |items|
  {
    hide Handle, ItemBytes, Meaning, NextUnit, ItemOk;
    if items == [] {
      NoItems();
    } else {
      var i := items[0];
      assert i in items;
      var b, more := ItemBytes(channel, i), Wire(channel, items[1..]);
      ItemUnit(channel, i, more);
      assert (b + more)[..|b|] == b && (b + more)[|b|..] == more;
      HandleItem(s, channel, i, dispatch);
      MeaningStep(items);
      FramingRoundTrip(Handle(s, b, dispatch).0, channel, items[1..], dispatch);
    }
  }

  lemma NoItems()
    ensures Meaning([]) == [] && NextUnit([]) == 0
  {
  }

  /** However TCP cuts it: the same, as long as the buffer does not overflow. */
  lemma SegmentedRoundTrip<S(!new)>(s: Session<S>, channel: Byte, items: seq<Item>, segs: seq<seq<Byte>>, dispatch: Dispatch<S>)
    requires Ready(s, channel) && Steady(channel, dispatch) && AllOk(channel, items)
    requires Flatten(segs) == Wire(channel, items) && !Overflows(Outcome(s, [], [], false), segs, dispatch)
    ensures var o := ReceiveAll(Outcome(s, [], [], false), segs, dispatch);
            o.events == Meaning(items) && o.buf == [] && !o.closed
  {
    hide Process, ReceiveAll, Overflows, Wire, Meaning;
    var start := Outcome(s, [], [], false);
    AnySegmentation(start, segs, dispatch);
    FramingRoundTrip(s, channel, items, dispatch);
    var w := Wire(channel, items);
    assert [] + w == w && [] + Meaning(items) == Meaning(items);
  }

  // ---------------------------------------------------------------- what is not played

  /**
   An RTP packet is played exactly when the backchannel is set up, the speaker open, the channel the
   right one, and there is sound in it.
   */
  lemma SoundPlayed<S>(s: Session<S>, channel: Byte, p: Rtp)
    requires RtpOk(p) && |RtpBytes(p)| < 0x10000
    ensures Payload(s, Interleaved(channel, RtpBytes(p))) ==
            if s.backchannel && s.speaker && s.channel == channel && p.payload != [] then [Play(p.payload)] else []
  {
    hide RtpBytes;
    InterleavedUnit(channel, RtpBytes(p), []);
    RtpStripped(p);
    assert Interleaved(channel, RtpBytes(p))[1] == channel;
  }

  /** A frame shorter than an RTP header is passed over. */
  lemma ShortFrame<S>(s: Session<S>, channel: Byte, data: seq<Byte>)
    requires |data| < 12
    ensures Payload(s, Interleaved(channel, data)) == []
  {
    InterleavedUnit(channel, data, []);
  }

  /** Once a request has freed the client, nothing that follows has any effect, in the same segment or later. */
  lemma TeardownEnds<S>(s: Session<S>, text: seq<Byte>, more: seq<Byte>, segs: seq<seq<Byte>>, dispatch: Dispatch<S>)
    requires AskOk(text) && dispatch(s, text).1
    ensures var o := Outcome(dispatch(s, text).0, [], [Request(text)], true);
            Process(s, text + more, dispatch) == o && ReceiveAll(o, segs, dispatch) == o
  {
    AskEnds(text, more, 0);
    assert (text + more)[..|text|] == text;
    ClosedStays(Process(s, text + more, dispatch), segs, dispatch);
  }
}
