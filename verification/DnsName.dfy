/**
 Domain names in DNS messages: dns_dname_encode with its table of known suffixes, and
 dns_dname_decode. Section 4.1.4 of RFC 1035.
 */
module DnsName {
  import opened Bytes

  const DOT: Byte := 46
  const OFFSET_MASK := 0x3fff
  const COMP_LOOP := 255
  const BUF_SIZE := 256

  type Text = seq<Byte>

  // ---------------------------------------------------------------- case folding

  function FoldByte(b: Byte): (c: Byte) {
    if 65 <= b <= 90 then b + 32 else b
  }

  /** ASCII lower case, as str_casecmp and hash_joaat_str_ci compare names. */
  function Fold(s: Text): (r: Text)
    ensures |r| == |s|
    ensures forall i :: 0 <= i < |s| ==> r[i] == FoldByte(s[i])
  {
    seq(|s|, i requires 0 <= i < |s| => FoldByte(s[i]))
  }

  /** How two names are compared: by ASCII case folding or byte by byte. */
  function Norm(ci: bool, s: Text): (r: Text)
    ensures |r| == |s|
    ensures forall i :: 0 <= i < |s| ==> (r[i] == DOT <==> s[i] == DOT)
    ensures forall i :: 0 <= i < |s| ==> (r[i] == 0 <==> s[i] == 0)
  {
    if ci then Fold(s) else s
  }

  lemma NormAppend(ci: bool, a: Text, b: Text)
    ensures Norm(ci, a + b) == Norm(ci, a) + Norm(ci, b)
  {
  }

  lemma NormSlice(ci: bool, s: Text, i: nat, j: nat)
    requires i <= j <= |s|
    ensures Norm(ci, s[i..j]) == Norm(ci, s)[i..j]
  {
  }

  // ---------------------------------------------------------------- labels

  /** Length of the first label: the bytes before the first dot. */
  function LabelLen(s: Text): (n: nat)
    ensures n <= |s|
  {
    if s == [] || s[0] == DOT then 0 else 1 + LabelLen(s[1..])
  }

  lemma {:induction false} LabelLenSpec(s: Text)
    ensures LabelLen(s) < |s| ==> s[LabelLen(s)] == DOT
    ensures forall i :: 0 <= i < LabelLen(s) ==> s[i] != DOT
  {
    if s != [] && s[0] != DOT {
      LabelLenSpec(s[1..]);
    }
  }

  lemma {:induction false} LabelLenIs(s: Text, n: nat)
    requires n <= |s| && (n < |s| ==> s[n] == DOT)
    requires forall i :: 0 <= i < n ==> s[i] != DOT
    ensures LabelLen(s) == n
  {
    if n > 0 {
      LabelLenIs(s[1..], n - 1);
    }
  }

  /** The labels of a name: none is empty, but the name may end in a dot. */
  ghost predicate Labelled(s: Text) {
    s == [] ||
    var n := LabelLen(s);
    1 <= n <= 63 && (n < |s| ==> Labelled(s[n + 1..]))
  }

  ghost function Labels(s: Text): (r: seq<Text>)
    requires Labelled(s)
    ensures 2 * |r| <= |s| + 1
  {
    if s == [] then []
    else
      var n := LabelLen(s);
      if n == |s| then [s] else [s[..n]] + Labels(s[n + 1..])
  }

  /** Text with labels added to it, each after a dot unless it is the first. */
  function Joined(text: Text, ls: seq<Text>): (r: Text)
    ensures |r| >= |text|
    decreases |ls|
  {
    if ls == [] then text
    else Joined(text + (if |text| > 0 then [DOT] else []) + ls[0], ls[1..])
  }

  /** The name that a decoder gives back: without the dot at its end. */
  function Canonical(name: Text): (r: Text) {
    if name != [] && name[|name| - 1] == DOT then name[..|name| - 1] else name
  }

  lemma CanonicalCons(lab: Text, rest: Text)
    requires lab != [] && DOT !in lab
    ensures Canonical(lab) == lab
    ensures Canonical(lab + [DOT] + rest) == if rest == [] then lab else lab + [DOT] + Canonical(rest)
  {
    var s := lab + [DOT] + rest;
    if rest == [] {
      assert s[..|s| - 1] == lab;
    } else if rest[|rest| - 1] == DOT {
      assert s[..|s| - 1] == lab + [DOT] + rest[..|rest| - 1];
    }
  }

  /** A name is its first label, or its first label, a dot and the rest. */
  lemma LabelsCons(s: Text)
    requires Labelled(s) && s != []
    ensures var n := LabelLen(s);
            && 1 <= n <= 63 && n <= |s|
            && (n == |s| ==> Labels(s) == [s])
            && (n < |s| ==> Labelled(s[n + 1..]) && Labels(s) == [s[..n]] + Labels(s[n + 1..]))
  {
    hide LabelLen;
  }

  lemma CutAtDot(s: Text)
    ensures var n := LabelLen(s);
            && DOT !in s[..n]
            && (n == |s| ==> s[..n] == s)
            && (n < |s| ==> s == s[..n] + [DOT] + s[n + 1..])
  {
    hide LabelLen;
    LabelLenSpec(s);
    var n := LabelLen(s);
    NoDot(s, n);
    if n < |s| {
      CutAt(s, n);
    }
  }

  lemma NoDot(s: Text, n: nat)
    requires n <= |s| && forall i :: 0 <= i < n ==> s[i] != DOT
    ensures DOT !in s[..n]
  {
  }

  lemma CutAt(s: Text, n: nat)
    requires n < |s|
    ensures s == s[..n] + [s[n]] + s[n + 1..]
  {
  }

  lemma JoinedCons(text: Text, l: Text, ls: seq<Text>)
    ensures Joined(text, [l] + ls) == Joined(text + (if |text| > 0 then [DOT] else []) + l, ls)
    ensures Joined(text, []) == text
  {
    assert ([l] + ls)[1..] == ls;
  }

  lemma {:induction false} JoinedLabels(text: Text, s: Text)
    requires Labelled(s) && text != []
    ensures Joined(text, Labels(s)) == if s == [] then text else text + [DOT] + Canonical(s)
    decreases |s|
  {
    hide Joined, LabelLen, Canonical, Labels, Labelled;
    if s == [] {
      NoLabels();
      JoinedCons(text, [], []);
    } else {
      LabelsCons(s);
      CutAtDot(s);
      var n := LabelLen(s);
      CanonicalCons(s[..n], if n < |s| then s[n + 1..] else []);
      var text' := text + [DOT] + s[..n];
      if n == |s| {
        JoinedCons(text, s, []);
        JoinedCons(text', [], []);
        assert [s] + [] == [s];
      } else {
        JoinedCons(text, s[..n], Labels(s[n + 1..]));
        JoinedLabels(text', s[n + 1..]);
        assert text' + [DOT] + Canonical(s[n + 1..]) == text + [DOT] + (s[..n] + [DOT] + Canonical(s[n + 1..]));
      }
    }
  }

  lemma NoLabels()
    ensures Labelled([]) && Labels([]) == []
  {
  }

  /** The labels of a name spell the name. */
  lemma LabelsSpell(s: Text)
    requires Labelled(s)
    ensures Joined([], Labels(s)) == Canonical(s)
  {
    hide Joined, LabelLen, Canonical, Labels, Labelled;
    if s == [] {
      NoLabels();
      JoinedCons([], [], []);
      CanonicalEmpty();
    } else {
      LabelsCons(s);
      CutAtDot(s);
      var n := LabelLen(s);
      CanonicalCons(s[..n], if n < |s| then s[n + 1..] else []);
      assert [] + [] + s[..n] == s[..n];
      if n == |s| {
        JoinedCons([], s, []);
        JoinedCons(s, [], []);
        assert [s] + [] == [s];
      } else {
        JoinedCons([], s[..n], Labels(s[n + 1..]));
        JoinedLabels(s[..n], s[n + 1..]);
      }
    }
  }

  lemma CanonicalEmpty()
    ensures Canonical([]) == []
  {
  }

  lemma NormLabelLen(ci: bool, s: Text)
    ensures LabelLen(Norm(ci, s)) == LabelLen(s)
  {
    hide Fold, Norm, LabelLen;
    LabelLenSpec(s);
    LabelLenIs(Norm(ci, s), LabelLen(s));
  }

  lemma LabelledCons(s: Text)
    ensures Labelled(s) <==> s == [] || (1 <= LabelLen(s) <= 63 && (LabelLen(s) < |s| ==> Labelled(s[LabelLen(s) + 1..])))
  {
    hide LabelLen;
  }

  lemma {:induction false} NormLabelled(ci: bool, s: Text)
    requires Labelled(s)
    ensures Labelled(Norm(ci, s)) && LabelLen(Norm(ci, s)) == LabelLen(s)
    decreases |s|
  {
    hide Fold, Norm, LabelLen, Labelled;
    var n := LabelLen(s);
    NormLabelLen(ci, s);
    LabelledCons(s);
    if s != [] && n < |s| {
      NormLabelled(ci, s[n + 1..]);
      NormSlice(ci, s, n + 1, |s|);
      assert s[n + 1..|s|] == s[n + 1..] && Norm(ci, s)[n + 1..|s|] == Norm(ci, s)[n + 1..];
    }
    LabelledCons(Norm(ci, s));
  }

  // ---------------------------------------------------------------- the decoder

  /** The fourteen bits of a pointer. */
  function Offset(hi: Byte, lo: Byte): (n: nat)
    requires hi >= 0xc0
    ensures n <= OFFSET_MASK
  {
    (hi as int - 0xc0) * 256 + lo
  }

  datatype Decoded = Decoded(text: Text, pos: nat)

  /** The decoding loop: `text` so far, `jumps` followed, and where to resume after the first jump. */
  function DecodeLoop(msg: seq<Byte>, start: nat, pos: nat, text: Text, jumps: nat, resume: Option<nat>)
    : (r: Result<Decoded>)
    ensures r.Ok? && |text| < BUF_SIZE ==> |r.value.text| < BUF_SIZE
    decreases COMP_LOOP + 1 - jumps, |msg| - pos
  {
    if pos >= |msg| then Err(EINVAL)
    else
      var len := msg[pos];
      if len == 0 then Ok(Decoded(text, if resume.Some? then resume.value else pos + 1))
      else if len >= 0xc0 then
        if jumps > COMP_LOOP || |msg| - pos < 2 then Err(EINVAL)
        else
          DecodeLoop(msg, start, Offset(len, msg[pos + 1]) + start, text, jumps + 1,
                     if resume.None? then Some(pos + 2) else resume)
      else if len > |msg| - pos - 1 then Err(EINVAL)
      else if len + |text| + 2 > BUF_SIZE then Err(EINVAL)
      else DecodeLoop(msg, start, pos + 1 + len,
                      text + (if |text| > 0 then [DOT] else []) + msg[pos + 1..pos + 1 + len],
                      jumps, resume)
  }

  /** One turn of the loop. */
  lemma DecodeTurn(msg: seq<Byte>, start: nat, pos: nat, text: Text, jumps: nat, resume: Option<nat>)
    ensures var r := DecodeLoop(msg, start, pos, text, jumps, resume);
            if pos >= |msg| then r == Err(EINVAL)
            else
              var len := msg[pos];
              if len == 0 then r == Ok(Decoded(text, if resume.Some? then resume.value else pos + 1))
              else if len >= 0xc0 then
                if jumps > COMP_LOOP || |msg| - pos < 2 then r == Err(EINVAL)
                else
                  r == DecodeLoop(msg, start, Offset(len, msg[pos + 1]) + start, text, jumps + 1,
                                  if resume.None? then Some(pos + 2) else resume)
              else if len > |msg| - pos - 1 || len + |text| + 2 > BUF_SIZE then r == Err(EINVAL)
              else
                r == DecodeLoop(msg, start, pos + 1 + len, Lengthened(text, msg[pos + 1..pos + 1 + len]), jumps, resume)
  {
  }

  /** Text with one more label. */
  function Lengthened(text: Text, lab: Text): (r: Text) {
    text + (if |text| > 0 then [DOT] else []) + lab
  }

  /** The C string in a buffer: everything before the first zero byte. */
  function UpToNul(s: Text): (r: Text) {
    if s == [] || s[0] == 0 then [] else [s[0]] + UpToNul(s[1..])
  }

  function Decode(msg: seq<Byte>, start: nat, pos: nat): (r: Result<Decoded>) {
    match DecodeLoop(msg, start, pos, [], 0, None)
    case Err(e) => Err(e)
    case Ok(d) => Ok(Decoded(UpToNul(d.text), d.pos))
  }

  /**
   dns_dname_decode, with its 256-byte buffer. It ends on every message and never writes outside
   the buffer: the measure is (jumps left, bytes to the end).
   */
  method DecodeName(msg: seq<Byte>, start: nat, from: nat) returns (r: Result<Decoded>)
    ensures r == Decode(msg, start, from)
    ensures r.Ok? ==> |r.value.text| + 1 <= 256
  {
    hide DecodeLoop, UpToNul, Offset;
    var buf := new Byte[BUF_SIZE](_ => 0);
    assert buf[..0] == [];
    var i: nat, loopc: nat, pos: nat := 0, 0, from;
    var comp: Option<nat> := None;
    while pos < |msg|
      invariant i < BUF_SIZE
      invariant DecodeLoop(msg, start, from, [], 0, None) == DecodeLoop(msg, start, pos, buf[..i], loopc, comp)
      decreases COMP_LOOP + 1 - loopc, |msg| - pos
    {
      DecodeTurn(msg, start, pos, buf[..i], loopc, comp);
      var len: nat := msg[pos];
      if len == 0 {
        UpToNulShort(buf[..i]);
        buf[i] := 0;
        return Ok(Decoded(UpToNul(buf[..i]), if comp.Some? then comp.value else pos + 1));
      } else if len >= 0xc0 {
        if loopc > COMP_LOOP || |msg| - pos < 2 {
          return Err(EINVAL);
        }
        loopc := loopc + 1;
        var offset := Offset(msg[pos], msg[pos + 1]);
        if comp.None? {
          comp := Some(pos + 2);
        }
        pos := offset + start;
        continue;
      } else if len > |msg| - pos - 1 {
        return Err(EINVAL);
      } else if len + i + 2 > BUF_SIZE {
        return Err(EINVAL);
      }
      ghost var text := buf[..i] + (if i > 0 then [DOT] else []);
      if i > 0 {
        buf[i] := DOT;
        i := i + 1;
      }
      assert buf[..i] == text;
      CopyLabel(buf, i, msg, pos + 1, len);
      i, pos := i + len, pos + 1 + len;
    }
    DecodeTurn(msg, start, pos, buf[..i], loopc, comp);
    return Err(EINVAL);
  }

  /** From pos on, k pointers lead from one to the next. */
  ghost predicate PointerChain(msg: seq<Byte>, start: nat, pos: nat, k: nat)
    decreases k
  {
    k == 0 ||
    (pos + 1 < |msg| && msg[pos] >= 0xc0 && PointerChain(msg, start, Offset(msg[pos], msg[pos + 1]) + start, k - 1))
  }

  /** A name that takes more than 256 jumps is refused, so the decoder cannot be sent in circles. */
  lemma {:induction false} TooManyJumps(msg: seq<Byte>, start: nat, pos: nat, text: Text, jumps: nat, resume: Option<nat>, k: nat)
    requires PointerChain(msg, start, pos, k) && jumps <= 256 && jumps + k == 257
    ensures DecodeLoop(msg, start, pos, text, jumps, resume) == Err(EINVAL)
    decreases k
  {
    hide Offset;
    if jumps < 256 {
      TooManyJumps(msg, start, Offset(msg[pos], msg[pos + 1]) + start, text, jumps + 1,
                   if resume.None? then Some(pos + 2) else resume, k - 1);
    }
  }

  /** At p there is a pointer to a place of the set. */
  ghost predicate LeadsInto(msg: seq<Byte>, start: nat, p: nat, at: set<nat>) {
    p + 1 < |msg| && msg[p] >= 0xc0 && Offset(msg[p], msg[p + 1]) + start in at
  }

  /** Pointers that lead only to pointers of the same set. */
  ghost predicate Circle(msg: seq<Byte>, start: nat, at: set<nat>) {
    forall p :: p in at ==> LeadsInto(msg, start, p, at)
  }

  lemma {:induction false} CircleIsChain(msg: seq<Byte>, start: nat, at: set<nat>, pos: nat, k: nat)
    requires Circle(msg, start, at) && pos in at
    ensures PointerChain(msg, start, pos, k)
    decreases k
  {
    hide Circle, Offset;
    CircleAt(msg, start, at, pos);
    if k > 0 {
      CircleIsChain(msg, start, at, Offset(msg[pos], msg[pos + 1]) + start, k - 1);
    }
  }

  lemma CircleAt(msg: seq<Byte>, start: nat, at: set<nat>, pos: nat)
    requires Circle(msg, start, at) && pos in at
    ensures LeadsInto(msg, start, pos, at)
  {
    hide LeadsInto;
  }

  lemma CirclesRefused(msg: seq<Byte>, start: nat, at: set<nat>, pos: nat)
    requires Circle(msg, start, at) && pos in at
    ensures Decode(msg, start, pos) == Err(EINVAL)
  {
    hide DecodeLoop, Offset, Circle;
    CircleIsChain(msg, start, at, pos, 257);
    TooManyJumps(msg, start, pos, [], 0, None, 257);
  }

  /** What case folding folds: the capital letters of ASCII, onto the small ones, and nothing else. */
  lemma FoldByteIs(b: Byte)
    ensures 'A' as int <= b <= 'Z' as int ==> FoldByte(b) == b + ('a' as int - 'A' as int)
    ensures !('A' as int <= b <= 'Z' as int) ==> FoldByte(b) == b
    ensures DOT == '.' as int
  {
  }

  /** The copying loop of the decoder. */
  method CopyLabel(buf: array<Byte>, to: nat, msg: seq<Byte>, from: nat, len: nat)
    requires to + len <= buf.Length && from + len <= |msg|
    modifies buf
    ensures buf[..to + len] == old(buf[..to]) + msg[from..from + len]
  {
    for k := 0 to len
      invariant buf[..to + k] == old(buf[..to]) + msg[from..from + k]
    {
      buf[to + k] := msg[from + k];
    }
  }

  lemma UpToNulShort(s: Text)
    ensures |UpToNul(s)| <= |s|
  {
  }

  lemma {:induction false} UpToNulWhole(s: Text)
    requires 0 !in s
    ensures UpToNul(s) == s
  {
    if s != [] {
      assert s[0] in s;
      UpToNulWhole(s[1..]);
    }
  }
}
