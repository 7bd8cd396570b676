/**
 The encoder of domain names with compression, and the round trip with the decoder: for any
 sequence of names in one message, sharing one table of suffix positions.
 */
module DnsCompression {
  import opened Bytes
  import opened DnsName

  /** struct dname: a name, or the tail of one, and its offset from the start of the message. */
  datatype Entry = Entry(name: Text, pos: nat)

  // ---------------------------------------------------------------- the table

  /** dname_lookup: the first entry with this name, up to ASCII case. */
  function Lookup(table: seq<Entry>, name: Text): (r: Option<Entry>)
    ensures r.Some? ==> r.value in table && Fold(r.value.name) == Fold(name)
    ensures r.None? ==> forall e :: e in table ==> Fold(e.name) != Fold(name)
  {
    if table == [] then None
    else if Fold(table[0].name) == Fold(name) then Some(table[0])
    else Lookup(table[1..], name)
  }

  /** dname_append: far positions and the empty name are not recorded. */
  function Append(table: seq<Entry>, name: Text, pos: nat): (r: seq<Entry>)
    ensures forall e :: e in r ==> e in table || e == Entry(name, pos)
  {
    if pos > OFFSET_MASK || name == [] then table else table + [Entry(name, pos)]
  }

  function Pointer(pos: nat): (s: seq<Byte>)
    ensures |s| == 2
  {
    [0xc0 + pos / 256 % 64, pos % 256]
  }

  // ---------------------------------------------------------------- the bytes of a name

  datatype Encoding = Encoding(bytes: seq<Byte>, table: seq<Entry>, ok: bool)

  function Prefix(pre: seq<Byte>, e: Encoding): (r: Encoding) {
    e.(bytes := pre + e.bytes)
  }

  /** A name, or the tail of one after a dot, at offset off: a pointer, or its labels. */
  function EncodeTail(name: Text, off: nat, table: seq<Entry>, comp: bool): (r: Encoding)
    decreases |name|, 1
  {
    var known := Lookup(table, name);
    if known.Some? && comp then Encoding(Pointer(known.value.pos), table, true)
    else EncodeLabel(name, off, if known.None? then Append(table, name, off) else table, comp)
  }

  /** The first label of a name and what follows it. */
  function EncodeLabel(name: Text, off: nat, table: seq<Entry>, comp: bool): (r: Encoding)
    decreases |name|, 0
  {
    if name == [] then Encoding([0], table, true)
    else
      var n := LabelLen(name);
      if n == 0 then Encoding([0], table, false)
      else if n == |name| then Encoding([n % 256] + name + [0], table, true)
      else Prefix([n % 256] + name[..n], EncodeTail(name[n + 1..], off + 1 + n, table, comp))
  }

  /** dns_dname_encode: as a tail, except that a lone dot is the root. */
  function EncodeSpec(name: Text, off: nat, table: seq<Entry>, comp: bool): (r: Encoding) {
    var known := Lookup(table, name);
    if name == [DOT] && !(known.Some? && comp) then
      Encoding([0], if known.None? then Append(table, name, off) else table, true)
    else EncodeTail(name, off, table, comp)
  }

  /** A message being written: the memory buffer, written at its end, and the table of its names. */
  class Message {
    var buf: seq<Byte>
    var table: seq<Entry>

    constructor ()
      ensures buf == [] && table == []
    {
      buf, table := [], [];
    }

    /** dns_dname_encode. */
    method EncodeName(name: Text, start: nat, comp: bool) returns (err: Option<Error>)
      requires start <= |buf|
      modifies this
      ensures var e := EncodeSpec(name, old(|buf|) - start, old(table), comp);
              && buf == old(buf) + e.bytes
              && table == e.table
              && err == if e.ok then None else Some(EINVAL)
    {
      hide EncodeSpec, EncodeLabel, Lookup, Append, Pointer, Fold;
      SpecTurn(name, |buf| - start, table, comp);
      var dn := Lookup(table, name);
      if dn.Some? && comp {
        buf := buf + Pointer(dn.value.pos);
        return None;
      }
      var pos := |buf|;
      if dn.None? {
        table := Append(table, name, pos - start);
      }
      if name == [DOT] {
        buf := buf + [0];
        return None;
      }
      var ok;
      buf, table, ok := EncodeLabels(buf, table, name, start, comp);
      return if ok then None else Some(EINVAL);
    }
  }

  /** The loop over the bytes of a name; a label's length is filled in once the label is complete. */
  method EncodeLabels(base: seq<Byte>, known: seq<Entry>, name: Text, start: nat, comp: bool)
    returns (buf: seq<Byte>, table: seq<Entry>, ok: bool)
    requires start <= |base|
    ensures var e := EncodeLabel(name, |base| - start, known, comp);
            buf == base + e.bytes && table == e.table && ok == e.ok
  {
    hide EncodeTail, EncodeLabel, LabelLen, Lookup, Append, Pointer, Fold;
    ghost var whole := EncodeLabel(name, |base| - start, known, comp);
    buf, table := base + [0], known;
    var pos, c := |base|, 0;
    ghost var done, s, cur := base, 0, whole;
    assert name[0..] == name && name[0..0] == [];
    while true
      invariant s <= c <= |name| && start <= pos == |done|
      invariant buf == done + [0] + name[s..c]
      invariant forall i :: s <= i < c ==> name[i] != DOT
      invariant cur == EncodeLabel(name[s..], pos - start, table, comp)
      invariant base + whole.bytes == done + cur.bytes && whole.table == cur.table && whole.ok == cur.ok
      decreases |name| - c
    {
      var lablen := |buf| - pos - 1;
      var lenByte: Byte := lablen % 256;
      LabelTurn(name, s, c, pos - start, table, comp);
      if c < |name| && name[c] != DOT {
        Extend(done + [0], name, s, c);
        buf := buf + [name[c]];
      } else if lablen == 0 {
        ok := c == |name|;
        return;
      } else {
        ghost var lab: seq<Byte> := [lenByte] + name[s..c];
        Patch(done, name[s..c], lenByte);
        buf := buf[pos := lenByte];
        if c == |name| {
          Assoc(done, lab, [0]);
          buf, ok := buf + [0], true;
          return;
        }
        ghost var tail := EncodeTail(name[c + 1..], |buf| - start, table, comp);
        Assoc(done, lab, tail.bytes);
        TailTurn(name[c + 1..], |buf| - start, table, comp);
        done, s := done + lab, c + 1;
        var dn := Lookup(table, name[c + 1..]);
        if dn.Some? && comp {
          buf, ok := buf + Pointer(dn.value.pos), true;
          return;
        }
        pos := |buf|;
        if dn.None? {
          table := Append(table, name[c + 1..], pos - start);
        }
        buf, cur := buf + [0], tail;
      }
      c := c + 1;
    }
  }

  lemma Extend(pre: seq<Byte>, name: Text, s: nat, c: nat)
    requires s <= c < |name|
    ensures pre + name[s..c] + [name[c]] == pre + name[s..c + 1]
  {
  }

  /** Filling in the length byte of a label. */
  lemma Patch(done: seq<Byte>, lab: seq<Byte>, n: Byte)
    ensures (done + [0] + lab)[|done| := n] == done + ([n] + lab)
  {
  }

  lemma SpecTurn(name: Text, off: nat, table: seq<Entry>, comp: bool)
    ensures var known := Lookup(table, name);
            var table1 := if known.None? then Append(table, name, off) else table;
            EncodeSpec(name, off, table, comp) ==
              if known.Some? && comp then Encoding(Pointer(known.value.pos), table, true)
              else if name == [DOT] then Encoding([0], table1, true)
              else EncodeLabel(name, off, table1, comp)
  {
  }

  /** The label that ends at cursor c, seen from the specification. */
  lemma LabelTurn(name: Text, s: nat, c: nat, off: nat, table: seq<Entry>, comp: bool)
    requires s <= c <= |name| && forall i :: s <= i < c ==> name[i] != DOT
    ensures c == |name| && c == s ==> EncodeLabel(name[s..], off, table, comp) == Encoding([0], table, true)
    ensures c == |name| && c > s ==>
              EncodeLabel(name[s..], off, table, comp) == Encoding([(c - s) % 256] + name[s..c] + [0], table, true)
    ensures c < |name| && name[c] == DOT && c == s ==>
              EncodeLabel(name[s..], off, table, comp) == Encoding([0], table, false)
    ensures c < |name| && name[c] == DOT && c > s ==>
              EncodeLabel(name[s..], off, table, comp) ==
                Prefix([(c - s) % 256] + name[s..c], EncodeTail(name[c + 1..], off + 1 + c - s, table, comp))
  {
    hide EncodeTail, EncodeLabel, LabelLen, Prefix;
    if c == |name| || name[c] == DOT {
      LabelLenIs(name[s..], c - s);
      LabelCases(name[s..], off, table, comp);
      assert name[s..][..c - s] == name[s..c];
      if c < |name| {
        assert name[s..][c - s + 1..] == name[c + 1..];
      } else {
        assert name[s..] == name[s..c];
      }
    }
  }

  lemma LabelCases(name: Text, off: nat, table: seq<Entry>, comp: bool)
    ensures var n := LabelLen(name);
            EncodeLabel(name, off, table, comp) ==
              if name == [] then Encoding([0], table, true)
              else if n == 0 then Encoding([0], table, false)
              else if n == |name| then Encoding([n % 256] + name + [0], table, true)
              else Prefix([n % 256] + name[..n], EncodeTail(name[n + 1..], off + 1 + n, table, comp))
  {
    hide EncodeTail, LabelLen, Prefix;
  }

  lemma TailTurn(name: Text, off: nat, table: seq<Entry>, comp: bool)
    ensures var known := Lookup(table, name);
            EncodeTail(name, off, table, comp) ==
              if known.Some? && comp then Encoding(Pointer(known.value.pos), table, true)
              else EncodeLabel(name, off, if known.None? then Append(table, name, off) else table, comp)
  {
  }

  // ---------------------------------------------------------------- names in a message

  /**
   At pos there is a name with these labels, compared through Norm(ci, .), and reading it follows
   at most `hops` pointers, each strictly backwards.
   */
  ghost predicate Reads(ci: bool, msg: seq<Byte>, start: nat, pos: nat, ls: seq<Text>, hops: nat)
    decreases |ls|, hops
  {
    && pos < |msg|
    && var b := msg[pos];
       if b == 0 then ls == []
       else if b >= 0xc0 then
         && pos + 1 < |msg| && hops > 0
         && var target := start + Offset(b, msg[pos + 1]);
            target < pos && Reads(ci, msg, start, target, ls, hops - 1)
       else
         && ls != [] && pos + 1 + b <= |msg| && b <= 63
         && Norm(ci, msg[pos + 1..pos + 1 + b]) == ls[0]
         && Reads(ci, msg, start, pos + 1 + b, ls[1..], hops)
  }

  /** Where the bytes of the name at pos end in the message. */
  ghost function NameEnd(msg: seq<Byte>, pos: nat): (end: nat)
    decreases |msg| - pos
  {
    if pos >= |msg| then pos
    else if msg[pos] == 0 then pos + 1
    else if msg[pos] >= 0xc0 then pos + 2
    else NameEnd(msg, pos + 1 + msg[pos])
  }

  /** Writing more after a name does not change it. */
  lemma {:induction false} ReadsAppend(ci: bool, msg: seq<Byte>, more: seq<Byte>, start: nat, pos: nat, ls: seq<Text>, hops: nat)
    requires Reads(ci, msg, start, pos, ls, hops)
    ensures Reads(ci, msg + more, start, pos, ls, hops)
    decreases |ls|, hops
  {
    var b := msg[pos];
    assert (msg + more)[pos] == b;
    if b >= 0xc0 {
      ReadsAppend(ci, msg, more, start, start + Offset(b, msg[pos + 1]), ls, hops - 1);
    } else if b > 0 {
      assert (msg + more)[pos + 1..pos + 1 + b] == msg[pos + 1..pos + 1 + b];
      ReadsAppend(ci, msg, more, start, pos + 1 + b, ls[1..], hops);
    }
  }

  lemma {:induction false} NameEndAppend(ci: bool, msg: seq<Byte>, more: seq<Byte>, start: nat, pos: nat, ls: seq<Text>, hops: nat)
    requires Reads(ci, msg, start, pos, ls, hops)
    ensures NameEnd(msg + more, pos) == NameEnd(msg, pos)
    decreases |ls|
  {
    var b := msg[pos];
    assert (msg + more)[pos] == b;
    if 0 < b < 0xc0 {
      NameEndAppend(ci, msg, more, start, pos + 1 + b, ls[1..], hops);
    }
  }

  lemma NormDot(ci: bool)
    ensures Norm(ci, []) == [] && Norm(ci, [DOT]) == [DOT]
  {
  }

  /**
   The decoder at such a name: the labels, in order, after the text it has, unless they do not
   fit its buffer; then it goes on where the name's own bytes end.
   */
  lemma {:induction false} DecodeReads(ci: bool, msg: seq<Byte>, start: nat, pos: nat, ls: seq<Text>, hops: nat,
                                       text: Text, jumps: nat, resume: Option<nat>)
    requires Reads(ci, msg, start, pos, ls, hops)
    requires jumps + hops <= 256 && |text| < 256
    ensures var r := DecodeLoop(msg, start, pos, text, jumps, resume);
            var all := Joined(Norm(ci, text), ls);
            if |all| < 256
            then r.Ok? && Norm(ci, r.value.text) == all
                 && r.value.pos == (if resume.Some? then resume.value else NameEnd(msg, pos))
            else r == Err(EINVAL)
    decreases |ls|, hops
  {
    hide Norm, Fold, Joined, DecodeLoop;
    DecodeTurn(msg, start, pos, text, jumps, resume);
    var b := msg[pos];
    if b >= 0xc0 {
      DecodeReads(ci, msg, start, start + Offset(b, msg[pos + 1]), ls, hops - 1, text, jumps + 1,
                  if resume.None? then Some(pos + 2) else resume);
    } else if b > 0 {
      var text' := Lengthened(text, msg[pos + 1..pos + 1 + b]);
      JoinedStep(ci, text, msg[pos + 1..pos + 1 + b], ls);
      if |text'| < BUF_SIZE {
        DecodeReads(ci, msg, start, pos + 1 + b, ls[1..], hops, text', jumps, resume);
      }
    } else {
      JoinedCons(Norm(ci, text), [], []);
    }
  }

  lemma JoinedStep(ci: bool, text: Text, lab: Text, ls: seq<Text>)
    requires ls != [] && Norm(ci, lab) == ls[0]
    ensures Joined(Norm(ci, text), ls) == Joined(Norm(ci, Lengthened(text, lab)), ls[1..])
  {
    hide Norm, Fold;
    var dot := if |text| > 0 then [DOT] else [];
    NormAppend(ci, text + dot, lab);
    NormAppend(ci, text, dot);
    NormDot(ci);
  }

  // ---------------------------------------------------------------- what the encoder writes

  ghost predicate NameOk(name: Text) {
    (name == [DOT] || Labelled(name)) && 0 !in name
  }

  ghost function NameLabels(ci: bool, name: Text): (ls: seq<Text>)
    requires NameOk(name)
  {
    if name == [DOT] then [] else NormLabelled(ci, name); Labels(Norm(ci, name))
  }

  /** A table entry points to its own name, with a pointer to spare. */
  ghost predicate EntryOk(ci: bool, msg: seq<Byte>, start: nat, e: Entry) {
    && e.pos <= OFFSET_MASK && NameOk(e.name)
    && Reads(ci, msg, start, start + e.pos, NameLabels(ci, e.name), |NameLabels(ci, e.name)|)
  }

  ghost predicate TableOk(ci: bool, msg: seq<Byte>, start: nat, table: seq<Entry>) {
    forall e :: e in table ==> EntryOk(ci, msg, start, e)
  }

  /** What encoding a name adds to a message: the name, and entries that point to their names. */
  ghost predicate Adds(ci: bool, msg: seq<Byte>, start: nat, table: seq<Entry>, ls: seq<Text>, e: Encoding) {
    var msg' := msg + e.bytes;
    && e.ok
    && Reads(ci, msg', start, |msg|, ls, |ls| + 1)
    && NameEnd(msg', |msg|) == |msg'|
    && forall x :: x in e.table ==> x in table || EntryOk(ci, msg', start, x)
  }

  lemma PointerReads(ci: bool, msg: seq<Byte>, start: nat, known: Entry)
    requires EntryOk(ci, msg, start, known)
    ensures var msg' := msg + Pointer(known.pos);
            var ls := NameLabels(ci, known.name);
            Reads(ci, msg', start, |msg|, ls, |ls| + 1) && NameEnd(msg', |msg|) == |msg'|
  {
    hide Norm, Fold, NameLabels, NameOk, Reads;
    var msg' := msg + Pointer(known.pos);
    var ls := NameLabels(ci, known.name);
    ReadsAppend(ci, msg, Pointer(known.pos), start, start + known.pos, ls, |ls|);
    assert msg'[|msg|] == 0xc0 + known.pos / 256 && msg'[|msg| + 1] == known.pos % 256;
    ReadsInside(ci, msg, start, start + known.pos, ls, |ls|);
    ReadsPointer(ci, msg', start, |msg|, ls, |ls|);
  }

  lemma ReadsInside(ci: bool, msg: seq<Byte>, start: nat, pos: nat, ls: seq<Text>, hops: nat)
    requires Reads(ci, msg, start, pos, ls, hops)
    ensures pos < |msg|
  {
  }

  lemma ReadsPointer(ci: bool, msg: seq<Byte>, start: nat, pos: nat, ls: seq<Text>, hops: nat)
    requires pos + 1 < |msg| && msg[pos] >= 0xc0
    requires var target := start + Offset(msg[pos], msg[pos + 1]); target < pos && Reads(ci, msg, start, target, ls, hops)
    ensures Reads(ci, msg, start, pos, ls, hops + 1)
  {
    hide Norm, Fold;
  }

  /** A literal label in front of a name. */
  lemma LabelReads(ci: bool, msg: seq<Byte>, start: nat, lab: Text, rest: seq<Byte>, ls: seq<Text>, hops: nat)
    requires 1 <= |lab| <= 63
    requires Reads(ci, msg + ([|lab|] + lab) + rest, start, |msg| + 1 + |lab|, ls, hops)
    ensures Reads(ci, msg + ([|lab|] + lab) + rest, start, |msg|, [Norm(ci, lab)] + ls, hops)
    ensures NameEnd(msg + ([|lab|] + lab) + rest, |msg|) == NameEnd(msg + ([|lab|] + lab) + rest, |msg| + 1 + |lab|)
  {
    var m := msg + ([|lab|] + lab) + rest;
    assert m[|msg|] == |lab|;
    assert m[|msg| + 1..|msg| + 1 + |lab|] == lab;
    assert ([Norm(ci, lab)] + ls)[1..] == ls;
  }

  lemma {:induction false} ReadsMore(ci: bool, msg: seq<Byte>, start: nat, pos: nat, ls: seq<Text>, hops: nat)
    requires Reads(ci, msg, start, pos, ls, hops)
    ensures Reads(ci, msg, start, pos, ls, hops + 1)
    decreases |ls|, hops
  {
    var b := msg[pos];
    if b >= 0xc0 {
      ReadsMore(ci, msg, start, start + Offset(b, msg[pos + 1]), ls, hops - 1);
    } else if b > 0 {
      ReadsMore(ci, msg, start, pos + 1 + b, ls[1..], hops);
    }
  }

  lemma EntryAppend(ci: bool, msg: seq<Byte>, more: seq<Byte>, start: nat, e: Entry)
    requires EntryOk(ci, msg, start, e)
    ensures EntryOk(ci, msg + more, start, e)
  {
    ReadsAppend(ci, msg, more, start, start + e.pos, NameLabels(ci, e.name), |NameLabels(ci, e.name)|);
  }

  lemma SameLabels(a: Text, b: Text)
    requires NameOk(a) && NameOk(b) && Fold(a) == Fold(b)
    ensures NameLabels(true, a) == NameLabels(true, b)
  {
    assert |a| == |b|;
    if |a| == 1 {
      assert FoldByte(a[0]) == Fold(a)[0] == Fold(b)[0] == FoldByte(b[0]);
    }
    assert a == [DOT] <==> b == [DOT];
  }

  /** The labels of a name are its first label and the labels of the rest. */
  lemma NameLabelsCons(ci: bool, name: Text)
    requires NameOk(name) && name != [DOT] && name != []
    ensures var n := LabelLen(name);
            && 1 <= n <= 63 && n <= |name|
            && (n == |name| ==> NameLabels(ci, name) == [Norm(ci, name)])
            && (n < |name| ==>
                  && NameOk(name[n + 1..]) && name[n + 1..] != [DOT]
                  && NameLabels(ci, name) == [Norm(ci, name[..n])] + NameLabels(ci, name[n + 1..]))
  {
    hide Fold, Norm, LabelLen, Labels, Labelled, NameOk, NameLabels;
    var n := LabelLen(name);
    NameLabelsIs(ci, name);
    LabelsNorm(ci, name);
    if n < |name| {
      SuffixOk(name, n + 1);
      NameLabelsIs(ci, name[n + 1..]);
    }
  }

  lemma NameLabelsIs(ci: bool, name: Text)
    requires NameOk(name) && name != [DOT]
    ensures Labelled(name) && Labelled(Norm(ci, name)) && NameLabels(ci, name) == Labels(Norm(ci, name))
  {
    hide Fold, Norm, Labels, Labelled;
    NormLabelled(ci, name);
  }

  lemma SuffixOk(name: Text, n: nat)
    requires NameOk(name) && n <= |name| && Labelled(name[n..])
    ensures NameOk(name[n..]) && name[n..] != [DOT]
  {
    hide Labelled;
    DotNotLabelled();
    assert forall b :: b in name[n..] ==> b in name;
  }

  lemma LabelsNorm(ci: bool, s: Text)
    requires Labelled(s) && s != []
    ensures var n := LabelLen(s);
            && 1 <= n <= 63 && n <= |s| && Labelled(Norm(ci, s))
            && (n == |s| ==> Labels(Norm(ci, s)) == [Norm(ci, s)])
            && (n < |s| ==>
                  && Labelled(s[n + 1..]) && Labelled(Norm(ci, s[n + 1..]))
                  && Labels(Norm(ci, s)) == [Norm(ci, s[..n])] + Labels(Norm(ci, s[n + 1..])))
  {
    hide Fold, Norm, LabelLen, Labels, Labelled;
    NormLabelled(ci, s);
    LabelsCons(s);
    LabelsCons(Norm(ci, s));
    var n := LabelLen(s);
    if n < |s| {
      NormCut(ci, s, n);
      NormLabelled(ci, s[n + 1..]);
    }
  }

  lemma NormCut(ci: bool, s: Text, n: nat)
    requires n < |s|
    ensures Norm(ci, s)[..n] == Norm(ci, s[..n])
    ensures Norm(ci, s)[n + 1..] == Norm(ci, s[n + 1..])
  {
  }

  lemma DotNotLabelled()
    ensures !Labelled([DOT])
  {
    assert LabelLen([DOT]) == 0;
  }

  /**
   Main lemma of the encoder. Entries for longer names may still be under way; all others point
   to their names. Names are compared up to case, or byte by byte when nothing is compressed.
   */
  lemma {:induction false} TailReads(ci: bool, msg: seq<Byte>, start: nat, name: Text, table: seq<Entry>, comp: bool)
    requires start <= |msg| && NameOk(name) && name != [DOT] && (ci || !comp)
    requires forall e :: e in table && |e.name| <= |name| ==> EntryOk(ci, msg, start, e)
    ensures Adds(ci, msg, start, table, NameLabels(ci, name), EncodeTail(name, |msg| - start, table, comp))
    decreases |name|, 1
  {
    hide Reads, NameEnd, EncodeLabel, Lookup, Pointer, NameLabels, NameOk, Fold;
    var known := Lookup(table, name);
    if known.Some? && comp {
      assert |known.value.name| == |name| by { assert |Fold(known.value.name)| == |Fold(name)|; }
      SameLabels(known.value.name, name);
      PointerReads(ci, msg, start, known.value);
    } else {
      var table1 := if known.None? then Append(table, name, |msg| - start) else table;
      LabelsRead(ci, msg, start, name, table1, comp);
    }
  }

  lemma {:induction false} LabelsRead(ci: bool, msg: seq<Byte>, start: nat, name: Text, table: seq<Entry>, comp: bool)
    requires start <= |msg| && NameOk(name) && name != [DOT] && (ci || !comp)
    requires forall e :: e in table && |e.name| < |name| ==> EntryOk(ci, msg, start, e)
    ensures var e := EncodeLabel(name, |msg| - start, table, comp);
            && Adds(ci, msg, start, table, NameLabels(ci, name), e)
            && (name != [] ==> Reads(ci, msg + e.bytes, start, |msg|, NameLabels(ci, name), |NameLabels(ci, name)|))
    decreases |name|, 0
  {
    hide EncodeTail, EncodeLabel, NameLabels, Reads, NameEnd, EntryOk, NameOk, LabelLen, Norm, Fold;
    LabelBytes(name, |msg| - start, table, comp);
    if name == [] {
      ZeroReads(ci, msg, start);
    } else {
      NameLabelsCons(ci, name);
      var n := LabelLen(name);
      var head: seq<Byte> := [n] + name[..n];
      if n == |name| {
        assert name[..n] == name;
        ZeroReads(ci, msg + head, start);
        LabelThenName(ci, msg, start, name, [0], [], 1);
        assert [Norm(ci, name)] + [] == [Norm(ci, name)];
      } else {
        var suffix := name[n + 1..];
        forall e | e in table && |e.name| <= |suffix| ensures EntryOk(ci, msg + head, start, e) {
          EntryAppend(ci, msg, head, start, e);
        }
        TailReads(ci, msg + head, start, suffix, table, comp);
        var e := EncodeTail(suffix, |msg + head| - start, table, comp);
        var ls := NameLabels(ci, suffix);
        LabelThenName(ci, msg, start, name[..n], e.bytes, ls, |ls| + 1);
      }
    }
  }

  /** EncodeLabel for a label that has a legal length. */
  lemma LabelBytes(name: Text, off: nat, table: seq<Entry>, comp: bool)
    ensures name == [] ==> EncodeLabel(name, off, table, comp) == Encoding([0], table, true)
    ensures var n := LabelLen(name);
            var head := [n % 256] + name[..n];
            1 <= n <= 63 ==>
              EncodeLabel(name, off, table, comp) ==
                if n == |name| then Encoding(head + [0], table, true)
                else Prefix(head, EncodeTail(name[n + 1..], off + 1 + n, table, comp))
  {
    hide EncodeTail, LabelLen;
    var n := LabelLen(name);
    if n == |name| {
      assert name[..n] == name;
    }
  }

  lemma LabelThenName(ci: bool, msg: seq<Byte>, start: nat, lab: Text, rest: seq<Byte>, ls: seq<Text>, hops: nat)
    requires 1 <= |lab| <= 63
    requires Reads(ci, msg + ([|lab|] + lab) + rest, start, |msg| + 1 + |lab|, ls, hops)
    ensures var m := msg + (([|lab|] + lab) + rest);
            && m == msg + ([|lab|] + lab) + rest
            && Reads(ci, m, start, |msg|, [Norm(ci, lab)] + ls, hops)
            && Reads(ci, m, start, |msg|, [Norm(ci, lab)] + ls, hops + 1)
            && NameEnd(m, |msg|) == NameEnd(m, |msg| + 1 + |lab|)
  {
    hide Norm, Fold, Reads, NameEnd;
    LabelReads(ci, msg, start, lab, rest, ls, hops);
    ReadsMore(ci, msg + ([|lab|] + lab) + rest, start, |msg|, [Norm(ci, lab)] + ls, hops);
    Assoc(msg, [|lab|] + lab, rest);
  }

  lemma ZeroReads(ci: bool, msg: seq<Byte>, start: nat)
    ensures forall hops: nat :: Reads(ci, msg + [0], start, |msg|, [], hops)
    ensures NameEnd(msg + [0], |msg|) == |msg + [0]|
    ensures NameOk([]) && NameLabels(ci, []) == []
  {
  }

  // ---------------------------------------------------------------- whole messages

  /** A message is built from names and from other bytes, in any order. */
  datatype Item = Name(name: Text, comp: bool) | Other(bytes: seq<Byte>)

  datatype State = State(msg: seq<Byte>, table: seq<Entry>)

  function WriteItem(st: State, start: nat, item: Item): (r: State)
    requires start <= |st.msg|
    ensures st.msg <= r.msg
  {
    match item
    case Other(bytes) => st.(msg := st.msg + bytes)
    case Name(name, comp) =>
      var e := EncodeSpec(name, |st.msg| - start, st.table, comp);
      State(st.msg + e.bytes, e.table)
  }

  function Write(st: State, start: nat, items: seq<Item>): (r: State)
    requires start <= |st.msg|
    ensures st.msg <= r.msg
  {
    if items == [] then st
    else WriteItem(Write(st, start, items[..|items| - 1]), start, items[|items| - 1])
  }

  /** A name that fits the decoder's buffer. */
  ghost predicate Fits(name: Text) {
    NameOk(name) && |Canonical(name)| < 256
  }

  ghost predicate ItemOk(ci: bool, item: Item) {
    item.Name? ==> Fits(item.name) && (ci || !item.comp)
  }

  /** Encoding one name keeps every table entry pointing to its own name. */
  lemma SpecReads(ci: bool, msg: seq<Byte>, start: nat, name: Text, table: seq<Entry>, comp: bool)
    requires start <= |msg| && NameOk(name) && (ci || !comp) && TableOk(ci, msg, start, table)
    ensures var e := EncodeSpec(name, |msg| - start, table, comp);
            Adds(ci, msg, start, table, NameLabels(ci, name), e) && TableOk(ci, msg + e.bytes, start, e.table)
  {
    hide Reads, NameEnd, EncodeTail, Lookup, NameOk, Fold, Pointer;
    var e := EncodeSpec(name, |msg| - start, table, comp);
    var known := Lookup(table, name);
    if name == [DOT] {
      if known.Some? && comp {
        SameLabels(known.value.name, name);
        PointerReads(ci, msg, start, known.value);
        TailTurn(name, |msg| - start, table, comp);
      } else {
        ZeroReads(ci, msg, start);
      }
    } else {
      TailReads(ci, msg, start, name, table, comp);
    }
    forall x | x in e.table ensures EntryOk(ci, msg + e.bytes, start, x) {
      if x in table {
        EntryAppend(ci, msg, e.bytes, start, x);
      }
    }
  }

  /** What every step of writing a message keeps. */
  lemma {:induction false} WriteKeepsTable(ci: bool, st: State, start: nat, items: seq<Item>)
    requires start <= |st.msg| && TableOk(ci, st.msg, start, st.table)
    requires forall i :: 0 <= i < |items| ==> ItemOk(ci, items[i])
    ensures TableOk(ci, Write(st, start, items).msg, start, Write(st, start, items).table)
  {
    hide EntryOk, EncodeSpec, Fits;
    if items != [] {
      var before, item := items[..|items| - 1], items[|items| - 1];
      assert ItemOk(ci, item);
      WriteKeepsTable(ci, st, start, before);
      var mid := Write(st, start, before);
      if item.Name? {
        FitsOk(item.name);
        SpecReads(ci, mid.msg, start, item.name, mid.table, item.comp);
      } else {
        forall e | e in mid.table ensures EntryOk(ci, mid.msg + item.bytes, start, e) {
          EntryAppend(ci, mid.msg, item.bytes, start, e);
        }
      }
    }
  }

  lemma FitsOk(name: Text)
    requires Fits(name)
    ensures NameOk(name)
  {
  }

  lemma {:induction false} WriteGrows(st: State, start: nat, items: seq<Item>, k: nat)
    requires start <= |st.msg| && k <= |items|
    ensures Write(st, start, items[..k]).msg <= Write(st, start, items).msg
    decreases |items|
  {
    hide WriteItem;
    if k == |items| {
      assert items[..k] == items;
    } else {
      var before := items[..|items| - 1];
      WriteGrows(st, start, before, k);
      assert before[..k] == items[..k];
    }
  }

  lemma WriteNext(st: State, start: nat, items: seq<Item>, k: nat)
    requires start <= |st.msg| && k < |items|
    ensures Write(st, start, items[..k + 1]) == WriteItem(Write(st, start, items[..k]), start, items[k])
  {
    assert items[..k + 1][..k] == items[..k];
  }

  /** A name in a message, read back. */
  lemma DecodesName(ci: bool, msg: seq<Byte>, start: nat, pos: nat, name: Text)
    requires Fits(name) && Reads(ci, msg, start, pos, NameLabels(ci, name), |NameLabels(ci, name)| + 1)
    ensures var r := Decode(msg, start, pos);
            && r.Ok? && r.value.pos == NameEnd(msg, pos)
            && Norm(ci, r.value.text) == Norm(ci, Canonical(name))
  {
    hide Reads, NameEnd, DecodeLoop, Fold, Norm, Labels, Labelled;
    var ls := NameLabels(ci, name);
    NormDot(ci);
    SpellsName(ci, name);
    DecodeReads(ci, msg, start, pos, ls, |ls| + 1, [], 0, None);
    var text := DecodeLoop(msg, start, pos, [], 0, None).value.text;
    NoZero(ci, text, Canonical(name));
    UpToNulWhole(text);
  }

  lemma SpellsName(ci: bool, name: Text)
    requires Fits(name)
    ensures Joined([], NameLabels(ci, name)) == Norm(ci, Canonical(name))
    ensures |NameLabels(ci, name)| <= 128
  {
    if name == [DOT] {
      assert Canonical(name) == [];
    } else {
      NormLabelled(ci, name);
      LabelsSpell(Norm(ci, name));
      if name != [] {
        NormSlice(ci, name, 0, |name| - 1);
      }
    }
  }

  lemma NoZero(ci: bool, text: Text, name: Text)
    requires Norm(ci, text) == Norm(ci, name) && 0 !in name
    ensures 0 !in text
  {
    assert |text| == |name|;
    forall i | 0 <= i < |text| ensures text[i] != 0 {
      assert Norm(ci, text)[i] == Norm(ci, name)[i];
      assert name[i] in name;
    }
  }

  /**
   The law of the component. Build a message from any items, with one table; then decoding at the
   start of any of its names gives that name, up to ASCII case and a dot at its end, and stops
   right after its encoding. When nothing is compressed the name comes back byte for byte.
   */
  lemma MessageRoundTrip(ci: bool, head: seq<Byte>, start: nat, items: seq<Item>, k: nat)
    requires start <= |head| && k < |items| && items[k].Name?
    requires forall i :: 0 <= i < |items| ==> ItemOk(ci, items[i])
    ensures var at := |Write(State(head, []), start, items[..k]).msg|;
            var after := |Write(State(head, []), start, items[..k + 1]).msg|;
            var r := Decode(Write(State(head, []), start, items).msg, start, at);
            && r.Ok? && r.value.pos == after
            && Norm(ci, r.value.text) == Norm(ci, Canonical(items[k].name))
  {
    hide Reads, NameEnd, Decode, EncodeSpec, Fold, Norm, Fits, Write;
    var st := State(head, []);
    var name, comp := items[k].name, items[k].comp;
    assert ItemOk(ci, items[k]);
    FitsOk(name);
    WriteKeepsTable(ci, st, start, items[..k]);
    var mid := Write(st, start, items[..k]);
    SpecReads(ci, mid.msg, start, name, mid.table, comp);
    var e := EncodeSpec(name, |mid.msg| - start, mid.table, comp);
    WriteNext(st, start, items, k);
    var upTo := Write(st, start, items[..k + 1]);
    assert upTo.msg == mid.msg + e.bytes;
    WriteGrows(st, start, items, k + 1);
    var final := Write(st, start, items).msg;
    var more := final[|upTo.msg|..];
    assert final == upTo.msg + more;
    var ls := NameLabels(ci, name);
    ReadsAppend(ci, upTo.msg, more, start, |mid.msg|, ls, |ls| + 1);
    NameEndAppend(ci, upTo.msg, more, start, |mid.msg|, ls, |ls| + 1);
    DecodesName(ci, final, start, |mid.msg|, name);
  }
}
