/**
 The section writers of dd_enc.c and the section readers of dd.c, loop by loop, over the bit writer
 and the bit reader. Proved against the functions of the DdCodec module.
 */
module DdCode {
  import opened Bytes
  import opened DdBits
  import opened DdCodec
  import opened DdBounds

  // ---------------------------------------------------------------- writers

  method WriteRow(pb: PutBit, n: nat, vs: seq<nat>)
    requires pb.Valid()
    modifies pb
    ensures pb.Valid() && pb.Written() == old(pb.Written()) + PutRow(n, vs)
  {
    hide ToBits, BytesBits;
    assert vs[0..] == vs;
    for i := 0 to |vs|
      invariant pb.Valid() && pb.Written() + PutRow(n, vs[i..]) == old(pb.Written()) + PutRow(n, vs)
    {
      assert vs[i..][1..] == vs[i + 1..];
      Assoc(pb.Written(), ToBits(n, vs[i]), PutRow(n, vs[i + 1..]));
      pb.Write(n, vs[i]);
    }
    Ends(pb.Written());
  }

  lemma Ends(s: Bits)
    ensures s + [] == s
  {
  }

  /** template_dtis, and the distances of template_chains: a table, row by row. */
  method WriteRows(pb: PutBit, n: nat, rows: seq<seq<nat>>)
    requires pb.Valid()
    modifies pb
    ensures pb.Valid() && pb.Written() == old(pb.Written()) + PutRows(n, rows)
  {
    hide PutRow, BytesBits;
    assert rows[0..] == rows;
    for i := 0 to |rows|
      invariant pb.Valid() && pb.Written() + PutRows(n, rows[i..]) == old(pb.Written()) + PutRows(n, rows)
    {
      assert rows[i..][1..] == rows[i + 1..];
      Assoc(pb.Written(), PutRow(n, rows[i]), PutRows(n, rows[i + 1..]));
      WriteRow(pb, n, rows[i]);
    }
    Ends(pb.Written());
  }

  /** template_layers: an error leaves the bits of the steps before it. */
  method WriteLayers(pb: PutBit, ls: seq<Layer>) returns (err: Option<Error>)
    requires pb.Valid()
    modifies pb
    ensures pb.Valid()
    ensures match PutLayers(ls)
            case None => err == Some(EBADMSG)
            case Some(s) => err == None && pb.Written() == old(pb.Written()) + s
  {
    hide ToBits, BytesBits;
    ghost var base := pb.Written();
    ghost var done: Bits := [];
    assert ls[0..] == ls;
    Ends(base);
    PrefixedNone(PutLayers(ls));
    var i := 1;
    while i < |ls|
      invariant 1 <= i && (i <= |ls| || ls == []) && pb.Valid() && pb.Written() == base + done
      invariant PutLayers(ls) == Prefixed(done, PutLayers(if ls == [] then ls else ls[i - 1..]))
    {
      ghost var rest := ls[i - 1..];
      assert rest[1..] == ls[i..];
      var idc := NextLayer(ls[i - 1], ls[i]);
      if idc == NO_MORE_TEMPLATES {
        return Some(EBADMSG);
      }
      PrefixedStep(done, ToBits(2, idc), PutLayers(ls[i..]));
      Assoc(base, done, ToBits(2, idc));
      pb.Write(2, idc);
      done := done + ToBits(2, idc);
      i := i + 1;
    }
    Assoc(base, done, ToBits(2, NO_MORE_TEMPLATES));
    pb.Write(2, NO_MORE_TEMPLATES);
    err := None;
  }

  ghost function Prefixed(done: Bits, r: Option<Bits>): Option<Bits> {
    match r
    case None => None
    case Some(s) => Some(done + s)
  }

  lemma PrefixedNone(r: Option<Bits>)
    ensures Prefixed([], r) == r
  {
    if r.Some? {
      assert [] + r.value == r.value;
    }
  }

  lemma PrefixedStep(done: Bits, x: Bits, r: Option<Bits>)
    ensures Prefixed(done, Prefixed(x, r)) == Prefixed(done + x, r)
  {
    if r.Some? {
      Assoc(done, x, r.value);
    }
  }

  method WriteFdiffRow(pb: PutBit, fs: seq<nat>)
    requires pb.Valid()
    modifies pb
    ensures pb.Valid() && pb.Written() == old(pb.Written()) + PutFdiffs(fs)
  {
    hide ToBits, BytesBits;
    assert fs[0..] == fs;
    for i := 0 to |fs|
      invariant pb.Valid() && pb.Written() + PutFdiffs(fs[i..]) == old(pb.Written()) + PutFdiffs(fs)
    {
      assert fs[i..][1..] == fs[i + 1..];
      var v := ToBits(4, fs[i] + 15);
      Assoc(pb.Written(), [true] + v, PutFdiffs(fs[i + 1..]));
      Assoc(pb.Written(), [true], v);
      pb.One(true);
      // fdiff - 1, of which four bits are written
      pb.Write(4, fs[i] + 15);
    }
    pb.One(false);
  }

  /** template_fdiffs. */
  method WriteFdiffs(pb: PutBit, rows: seq<seq<nat>>)
    requires pb.Valid()
    modifies pb
    ensures pb.Valid() && pb.Written() == old(pb.Written()) + PutAllFdiffs(rows)
  {
    hide PutFdiffs, BytesBits;
    assert rows[0..] == rows;
    for i := 0 to |rows|
      invariant pb.Valid() && pb.Written() + PutAllFdiffs(rows[i..]) == old(pb.Written()) + PutAllFdiffs(rows)
    {
      assert rows[i..][1..] == rows[i + 1..];
      Assoc(pb.Written(), PutFdiffs(rows[i]), PutAllFdiffs(rows[i + 1..]));
      WriteFdiffRow(pb, rows[i]);
    }
    Ends(pb.Written());
  }

  /** template_chains. */
  method WriteChains(pb: PutBit, dtCnt: nat, c: Chains)
    requires pb.Valid()
    modifies pb
    ensures pb.Valid() && pb.Written() == old(pb.Written()) + PutChains(dtCnt, c)
  {
    hide ToNs, PutRows, BytesBits;
    ghost var base := pb.Written();
    ghost var head := ToNs(dtCnt + 1, c.cnt);
    pb.WriteNs(dtCnt + 1, c.cnt);
    if c.cnt == 0 {
      Ends(head);
      return;
    }
    var vs := c.protectedBy;
    ghost var row, table := PutNsRow(c.cnt, vs), PutRows(4, c.fdiffs);
    assert vs[0..] == vs;
    for i := 0 to |vs|
      invariant pb.Valid() && pb.Written() + PutNsRow(c.cnt, vs[i..]) == base + head + row
    {
      assert vs[i..][1..] == vs[i + 1..];
      Assoc(pb.Written(), ToNs(c.cnt, vs[i]), PutNsRow(c.cnt, vs[i + 1..]));
      pb.WriteNs(c.cnt, vs[i]);
    }
    Ends(pb.Written());
    WriteRows(pb, 4, c.fdiffs);
    Assoc(base + head, row, table);
    Assoc(base, head, row + table);
  }

  /** render_resolutions. */
  method WriteRenders(pb: PutBit, rs: seq<Resolution>)
    requires pb.Valid()
    modifies pb
    ensures pb.Valid() && pb.Written() == old(pb.Written()) + PutRenders(rs)
  {
    hide ToBits, BytesBits;
    assert rs[0..] == rs;
    for i := 0 to |rs|
      invariant pb.Valid() && pb.Written() + PutRenders(rs[i..]) == old(pb.Written()) + PutRenders(rs)
    {
      assert rs[i..][1..] == rs[i + 1..];
      var w, h := ToBits(16, rs[i].w), ToBits(16, rs[i].h);
      Assoc(pb.Written(), w + h, PutRenders(rs[i + 1..]));
      Assoc(pb.Written(), w, h);
      pb.Write(16, rs[i].w);
      pb.Write(16, rs[i].h);
    }
    Ends(pb.Written());
  }

  /** template_dependency_structure. */
  method WriteStructure(pb: PutBit, d: Structure) returns (err: Option<Error>)
    requires pb.Valid()
    modifies pb
    ensures pb.Valid()
    ensures match PutStructure(d)
            case Err(e) => err == Some(e)
            case Ok(s) => err == None && pb.Written() == old(pb.Written()) + s
  {
    hide ToBits, BytesBits, PutLayers, PutRows, PutAllFdiffs, PutChains, PutRenders;
    ghost var w0 := pb.Written();
    pb.Write(6, d.offset);
    pb.Write(5, d.dtCnt + 31);
    err := WriteLayers(pb, d.layers);
    if err.Some? {
      return;
    }
    WriteRows(pb, 2, d.dtis);
    WriteFdiffs(pb, d.fdiffs);
    WriteChains(pb, d.dtCnt, d.chains);
    pb.One(d.renders.Some?);
    ghost var renders: Bits := [];
    if d.renders.Some? {
      renders := PutRenders(d.renders.value);
      WriteRenders(pb, d.renders.value);
    } else {
      Ends(pb.Written());
    }
    Regroup(w0, ToBits(6, d.offset), ToBits(5, d.dtCnt + 31), PutLayers(d.layers).value, PutRows(2, d.dtis),
            PutAllFdiffs(d.fdiffs), PutChains(d.dtCnt, d.chains), Flag(d.renders.Some?), renders);
  }

  lemma Regroup(w: Bits, a: Bits, b: Bits, c: Bits, d: Bits, e: Bits, f: Bits, g: Bits, h: Bits)
    ensures w + a + b + c + d + e + f + g + h == w + (a + (b + (c + (d + (e + (f + (g + h)))))))
  {
    Assoc(w + a + b + c + d + e + f, g, h);
    Assoc(w + a + b + c + d + e, f, g + h);
    Assoc(w + a + b + c + d, e, f + (g + h));
    Assoc(w + a + b + c, d, e + (f + (g + h)));
    Assoc(w + a + b, c, d + (e + (f + (g + h))));
    Assoc(w + a, b, c + (d + (e + (f + (g + h)))));
    Assoc(w, a, b + (c + (d + (e + (f + (g + h))))));
  }

  /** extended_descriptor_fields. */
  method WriteExt(pb: PutBit, e: Ext) returns (err: Option<Error>)
    requires pb.Valid()
    modifies pb
    ensures pb.Valid()
    ensures match PutExt(e)
            case Err(x) => err == Some(x)
            case Ok(s) => err == None && pb.Written() == old(pb.Written()) + s
  {
    hide BytesBits, PutStructure;
    ghost var w0 := pb.Written();
    ghost var flags := [e.structure.Some?, e.active, e.customDtis, e.customFdiffs, e.customChains];
    pb.One(e.structure.Some?);
    pb.One(e.active);
    pb.One(e.customDtis);
    pb.One(e.customFdiffs);
    pb.One(e.customChains);
    assert pb.Written() == w0 + flags;
    err := None;
    if e.structure.Some? {
      err := WriteStructure(pb, e.structure.value);
      if err.Some? {
        return;
      }
      Assoc(w0, flags, PutStructure(e.structure.value).value);
    } else {
      Ends(flags);
    }
    if e.active {
      return Some(ENOTSUP);
    }
  }

  /** dd_encode into a buffer of some capacity. */
  method EncodeDd(d: Dd, capacity: nat) returns (err: Option<Error>, out: seq<Byte>)
    requires capacity > 0
    ensures match Encode(d)
            case Err(e) => err == Some(e)
            case Ok(s) => err == None && s <= BytesBits(out) && |out| == (|s| + 7) / 8
  {
    hide BytesBits, PutExt, ToBits;
    var pb := new PutBit(capacity);
    out := [];
    pb.One(d.start);
    pb.One(d.end);
    pb.Write(6, d.templateId);
    pb.Write(16, d.frameNumber);
    ghost var head := [d.start, d.end] + (ToBits(6, d.templateId) + ToBits(16, d.frameNumber));
    Assoc([d.start, d.end], ToBits(6, d.templateId), ToBits(16, d.frameNumber));
    assert pb.Written() == head;
    err := None;
    if d.ext.Some? {
      err := WriteExt(pb, d.ext.value);
      if err.Some? {
        return;
      }
    }
    out := pb.Contents();
  }

  // ---------------------------------------------------------------- readers
  //
  // Each reader stops at the first write that would fall outside its array: what the code does
  // after that is undefined. `inside` says that there was none.

  /** What has been read so far, followed by what is left to read. */
  ghost function After<T>(done: seq<T>, r: Result<Parsed<seq<T>>>): Result<Parsed<seq<T>>> {
    match r
    case Err(e) => Err(e)
    case Ok(p) => Ok(Parsed(done + p.v, p.rest))
  }

  lemma AfterNone<T>(r: Result<Parsed<seq<T>>>)
    ensures After([], r) == r
  {
    if r.Ok? {
      assert [] + r.value.v == r.value.v;
    }
  }

  lemma AfterStep<T>(done: seq<T>, x: T, r: Result<Parsed<seq<T>>>)
    ensures After(done, After([x], r)) == After(done + [x], r)
  {
    if r.Ok? {
      assert done + ([x] + r.value.v) == done + [x] + r.value.v;
    }
  }

  lemma AfterEnd<T>(done: seq<T>, rest: Bits)
    ensures After(done, Ok(Parsed([], rest))) == Ok(Parsed(done, rest))
  {
    assert done + [] == done;
  }

  method ReadRow(gb: GetBit, n: nat, k: nat, limit: nat) returns (r: Result<seq<nat>>, inside: bool)
    requires gb.Valid()
    modifies gb`pos
    ensures gb.Valid() && inside == RowIn(old(gb.Rest()), n, k, 0, limit)
    ensures inside ==>
              match GetRow(old(gb.Rest()), n, k)
              case Err(e) => r == Err(e)
              case Ok(p) => r == Ok(p.v) && gb.Rest() == p.rest
  {
    hide BytesBits, Get, After;
    ghost var whole := GetRow(gb.Rest(), n, k);
    ghost var all := RowIn(gb.Rest(), n, k, 0, limit);
    var vs: seq<nat> := [];
    AfterNone(whole);
    inside := true;
    for i := 0 to k
      invariant gb.Valid() && whole == After(vs, GetRow(gb.Rest(), n, k - i))
      invariant all == RowIn(gb.Rest(), n, k - i, i, limit)
    {
      RowTurn(gb.Rest(), n, k - i, vs);
      if gb.Left() < n {
        return Err(EBADMSG), true;
      }
      if i >= limit {
        return Err(EBADMSG), false;
      }
      var v := gb.Read(n);
      vs := vs + [v];
    }
    AfterEnd(vs, gb.Rest());
    r := Ok(vs);
  }

  lemma RowTurn(s: Bits, n: nat, k: nat, vs: seq<nat>)
    requires k > 0
    ensures |s| < n ==> After(vs, GetRow(s, n, k)) == Err(EBADMSG)
    ensures |s| >= n ==> After(vs, GetRow(s, n, k)) == After(vs + [Get(s, n).v], GetRow(Get(s, n).rest, n, k - 1))
  {
    hide Get;
    AfterStep(vs, Get(s, n).v, GetRow(Get(s, n).rest, n, k - 1));
  }

  /** template_dtis. */
  method ReadRows(gb: GetBit, n: nat, k: nat, limit: nat, cnt: nat) returns (r: Result<seq<seq<nat>>>, inside: bool)
    requires gb.Valid() && cnt <= MAX_TEMPLATES
    modifies gb`pos
    ensures gb.Valid() && inside == RowsIn(old(gb.Rest()), n, k, limit, 0, cnt)
    ensures inside ==>
              match GetRows(old(gb.Rest()), n, k, cnt)
              case Err(e) => r == Err(e)
              case Ok(p) => r == Ok(p.v) && gb.Rest() == p.rest
  {
    hide BytesBits, GetRow, After, RowIn;
    ghost var whole := GetRows(gb.Rest(), n, k, cnt);
    ghost var all := RowsIn(gb.Rest(), n, k, limit, 0, cnt);
    var rows: seq<seq<nat>> := [];
    AfterNone(whole);
    inside := true;
    for i := 0 to cnt
      invariant gb.Valid() && whole == After(rows, GetRows(gb.Rest(), n, k, cnt - i))
      invariant inside && all == RowsIn(gb.Rest(), n, k, limit, i, cnt - i)
    {
      RowsTurn(gb.Rest(), n, k, cnt - i, rows);
      var row;
      row, inside := ReadRow(gb, n, k, limit);
      if !inside {
        return Err(EBADMSG), false;
      }
      if row.Err? {
        return Err(row.error), true;
      }
      rows := rows + [row.value];
    }
    AfterEnd(rows, gb.Rest());
    r := Ok(rows);
  }

  lemma RowsTurn(s: Bits, n: nat, k: nat, cnt: nat, rows: seq<seq<nat>>)
    requires cnt > 0
    ensures match GetRow(s, n, k)
            case Err(e) => After(rows, GetRows(s, n, k, cnt)) == Err(e)
            case Ok(p) => After(rows, GetRows(s, n, k, cnt)) == After(rows + [p.v], GetRows(p.rest, n, k, cnt - 1))
  {
    hide GetRow;
    if GetRow(s, n, k).Ok? {
      var p := GetRow(s, n, k).value;
      AfterStep(rows, p.v, GetRows(p.rest, n, k, cnt - 1));
    }
  }

  /** template_layers. */
  method ReadLayers(gb: GetBit) returns (r: Result<seq<Layer>>)
    requires gb.Valid()
    modifies gb`pos
    ensures gb.Valid()
    ensures match GetLayers(old(gb.Rest()), Layer(0, 0), 0)
            case Err(e) => r == Err(e)
            case Ok(p) => r == Ok(p.v) && gb.Rest() == p.rest
    ensures r.Ok? ==> 1 <= |r.value| <= MAX_TEMPLATES
  {
    hide BytesBits, Get, After;
    ghost var whole := GetLayers(gb.Rest(), Layer(0, 0), 0);
    var l := Layer(0, 0);
    var ls: seq<Layer> := [];
    AfterNone(whole);
    while true
      invariant gb.Valid() && whole == After(ls, GetLayers(gb.Rest(), l, |ls|))
      decreases gb.Left()
    {
      LayersTurn(gb.Rest(), l, ls);
      if |ls| >= MAX_TEMPLATES {
        return Err(EOVERFLOW);
      }
      if gb.Left() < 2 {
        return Err(EBADMSG);
      }
      ghost var left := |gb.Rest()|;
      GetShorter(gb.Rest(), 2);
      ls := ls + [l];
      var idc := gb.Read(2);
      if idc == NO_MORE_TEMPLATES {
        return Ok(ls);
      }
      l := ApplyIdc(l, idc);
    }
  }

  lemma GetShorter(s: Bits, n: nat)
    ensures |s| >= n ==> |Get(s, n).rest| == |s| - n
  {
  }

  lemma LayersTurn(s: Bits, l: Layer, ls: seq<Layer>)
    ensures var r := After(ls, GetLayers(s, l, |ls|));
            if |ls| >= MAX_TEMPLATES then r == Err(EOVERFLOW)
            else if |s| < 2 then r == Err(EBADMSG)
            else
              var g := Get(s, 2);
              r == if g.v == NO_MORE_TEMPLATES then Ok(Parsed(ls + [l], g.rest))
                   else After(ls + [l], GetLayers(g.rest, ApplyIdc(l, g.v), |ls| + 1))
  {
    hide Get;
    if |ls| < MAX_TEMPLATES && |s| >= 2 && Get(s, 2).v != NO_MORE_TEMPLATES {
      AfterStep(ls, l, GetLayers(Get(s, 2).rest, ApplyIdc(l, Get(s, 2).v), |ls| + 1));
    }
  }

  method ReadFdiffRow(gb: GetBit, first: bool) returns (r: Result<seq<nat>>, inside: bool)
    requires gb.Valid()
    modifies gb`pos
    ensures gb.Valid() && inside == FdiffsIn(old(gb.Rest()), first, 0)
    ensures inside ==>
              match GetFdiffs(old(gb.Rest()), first)
              case Err(e) => r == Err(e)
              case Ok(p) => r == Ok(p.v) && gb.Rest() == p.rest
  {
    hide BytesBits, Get, After;
    ghost var whole := GetFdiffs(gb.Rest(), first);
    ghost var all := FdiffsIn(gb.Rest(), first, 0);
    var follows, fs: seq<nat> := first, [];
    AfterNone(whole);
    while follows
      invariant gb.Valid() && whole == After<nat>(fs, GetFdiffs(gb.Rest(), follows))
      invariant all == FdiffsIn(gb.Rest(), follows, |fs|)
      decreases gb.Left(), follows
    {
      ghost var s := gb.Rest();
      FdiffTurn(s, follows, fs);
      if gb.Left() < 5 {
        return Err(EBADMSG), true;
      }
      GetShorter(s, 4);
      var v := gb.Read(4);
      if |fs| >= MAX_FDIFFS {
        return Err(EBADMSG), false;
      }
      ghost var s' := gb.Rest();
      GetShorter(s', 1);
      var f := gb.Read(1);
      fs, follows := fs + [v + 1], f == 1;
    }
    AfterEnd(fs, gb.Rest());
    r, inside := Ok(fs), true;
  }

  lemma FdiffTurn(s: Bits, follows: bool, fs: seq<nat>)
    requires follows
    ensures |s| < 5 ==> After(fs, GetFdiffs(s, follows)) == Err(EBADMSG)
    ensures |s| >= 5 ==>
              var g := Get(s, 4);
              var f := Get(g.rest, 1);
              After<nat>(fs, GetFdiffs(s, follows)) == After<nat>(fs + [g.v + 1], GetFdiffs(f.rest, f.v == 1))
  {
    hide Get;
    if |s| >= 5 {
      var g := Get(s, 4);
      var f := Get(g.rest, 1);
      AfterStep<nat>(fs, g.v + 1, GetFdiffs(f.rest, f.v == 1));
    }
  }

  /** template_fdiffs. */
  method ReadFdiffs(gb: GetBit, cnt: nat) returns (r: Result<seq<seq<nat>>>, inside: bool)
    requires gb.Valid() && cnt <= MAX_TEMPLATES
    modifies gb`pos
    ensures gb.Valid() && inside == AllFdiffsIn(old(gb.Rest()), 0, cnt)
    ensures inside ==>
              match GetAllFdiffs(old(gb.Rest()), cnt)
              case Err(e) => r == Err(e)
              case Ok(p) => r == Ok(p.v) && gb.Rest() == p.rest
  {
    hide BytesBits, Get, After, GetFdiffs, FdiffsIn;
    ghost var whole := GetAllFdiffs(gb.Rest(), cnt);
    ghost var all := AllFdiffsIn(gb.Rest(), 0, cnt);
    var rows: seq<seq<nat>> := [];
    AfterNone(whole);
    inside := true;
    for i := 0 to cnt
      invariant gb.Valid() && whole == After(rows, GetAllFdiffs(gb.Rest(), cnt - i))
      invariant inside && all == AllFdiffsIn(gb.Rest(), i, cnt - i)
    {
      FdiffsTurn(gb.Rest(), cnt - i, rows);
      if gb.Left() < 1 {
        return Err(EBADMSG), true;
      }
      var f := gb.Read(1);
      var row;
      row, inside := ReadFdiffRow(gb, f == 1);
      if !inside {
        return Err(EBADMSG), false;
      }
      if row.Err? {
        return Err(row.error), true;
      }
      rows := rows + [row.value];
    }
    AfterEnd(rows, gb.Rest());
    r := Ok(rows);
  }

  lemma FdiffsTurn(s: Bits, cnt: nat, rows: seq<seq<nat>>)
    requires cnt > 0
    ensures var r := After(rows, GetAllFdiffs(s, cnt));
            if |s| < 1 then r == Err(EBADMSG)
            else match GetFdiffs(Get(s, 1).rest, Get(s, 1).v == 1)
              case Err(e) => r == Err(e)
              case Ok(p) => r == After(rows + [p.v], GetAllFdiffs(p.rest, cnt - 1))
  {
    hide Get, GetFdiffs;
    if |s| >= 1 {
      var f := GetFdiffs(Get(s, 1).rest, Get(s, 1).v == 1);
      if f.Ok? {
        AfterStep(rows, f.value.v, GetAllFdiffs(f.value.rest, cnt - 1));
      }
    }
  }

  /** The first loop of template_chains: it writes k entries, whether or not there are bits. */
  method ReadNsRow(gb: GetBit, n: nat, k: nat, limit: nat) returns (vs: seq<nat>, inside: bool)
    requires gb.Valid() && n >= 1
    modifies gb`pos
    ensures gb.Valid() && inside == (k <= limit)
    ensures inside ==> Parsed(vs, gb.Rest()) == GetNsRow(old(gb.Rest()), n, k)
  {
    hide BytesBits, GetNs, After;
    ghost var whole := GetNsRow(gb.Rest(), n, k);
    vs := [];
    AfterNone(Ok(whole));
    for i := 0 to k
      invariant i <= limit
      invariant gb.Valid() && Ok(whole) == After(vs, Ok(GetNsRow(gb.Rest(), n, k - i)))
    {
      AfterStep(vs, GetNs(gb.Rest(), n).v, Ok(GetNsRow(GetNs(gb.Rest(), n).rest, n, k - i - 1)));
      AfterOne(GetNs(gb.Rest(), n).v, GetNsRow(GetNs(gb.Rest(), n).rest, n, k - i - 1));
      var v := gb.ReadNs(n);
      if i >= limit {
        return vs, false;
      }
      vs := vs + [v];
    }
    AfterEnd(vs, gb.Rest());
    inside := true;
  }

  lemma AfterOne<T>(x: T, p: Parsed<seq<T>>)
    ensures After([x], Ok(p)) == Ok(Parsed([x] + p.v, p.rest))
  {
  }

  /** The second loop of template_chains; its early exit on missing bits is the same as reading zeros. */
  method ReadRow0(gb: GetBit, n: nat, k: nat) returns (vs: seq<nat>)
    requires gb.Valid()
    modifies gb`pos
    ensures gb.Valid() && Parsed(vs, gb.Rest()) == GetRow0(old(gb.Rest()), n, k)
  {
    hide BytesBits, Get, After;
    ghost var whole := GetRow0(gb.Rest(), n, k);
    vs := [];
    AfterNone(Ok(whole));
    for i := 0 to k
      invariant gb.Valid() && Ok(whole) == After(vs, Ok(GetRow0(gb.Rest(), n, k - i)))
    {
      AfterStep(vs, Get(gb.Rest(), n).v, Ok(GetRow0(Get(gb.Rest(), n).rest, n, k - i - 1)));
      AfterOne(Get(gb.Rest(), n).v, GetRow0(Get(gb.Rest(), n).rest, n, k - i - 1));
      var v := gb.Read(n);
      vs := vs + [v];
    }
    AfterEnd(vs, gb.Rest());
  }

  method ReadRows0(gb: GetBit, n: nat, k: nat, cnt: nat) returns (rows: seq<seq<nat>>)
    requires gb.Valid()
    modifies gb`pos
    ensures gb.Valid() && Parsed(rows, gb.Rest()) == GetRows0(old(gb.Rest()), n, k, cnt)
  {
    hide BytesBits, GetRow0, After;
    ghost var whole := GetRows0(gb.Rest(), n, k, cnt);
    rows := [];
    AfterNone(Ok(whole));
    for i := 0 to cnt
      invariant gb.Valid() && Ok(whole) == After(rows, Ok(GetRows0(gb.Rest(), n, k, cnt - i)))
    {
      ghost var p := GetRow0(gb.Rest(), n, k);
      AfterStep(rows, p.v, Ok(GetRows0(p.rest, n, k, cnt - i - 1)));
      AfterOne(p.v, GetRows0(p.rest, n, k, cnt - i - 1));
      var row := ReadRow0(gb, n, k);
      rows := rows + [row];
    }
    AfterEnd(rows, gb.Rest());
  }

  /** template_chains. */
  method ReadChains(gb: GetBit, dtCnt: nat, cnt: nat) returns (c: Chains, inside: bool)
    requires gb.Valid() && cnt <= MAX_TEMPLATES
    modifies gb`pos
    ensures gb.Valid() && inside == ChainsIn(old(gb.Rest()), dtCnt, cnt)
    ensures inside ==> Parsed(c, gb.Rest()) == GetChains(old(gb.Rest()), dtCnt, cnt)
  {
    hide BytesBits, GetNs, GetNsRow, GetRows0, RowsIn;
    if dtCnt <= MAX_TARGETS {
      ChainsInside(gb.Rest(), dtCnt, cnt);
    }
    c := Chains(0, [], []);
    var n := gb.ReadNs(dtCnt + 1);
    if n == 0 {
      return c, true;
    }
    var row;
    row, inside := ReadNsRow(gb, n, dtCnt, MAX_TARGETS);
    if !inside {
      return;
    }
    // no more chains than targets, so the distances stay inside as well
    var table := ReadRows0(gb, 4, n, cnt);
    c := Chains(n, row, table);
  }

  /** render_resolutions. */
  method ReadRenders(gb: GetBit, k: nat) returns (r: Result<seq<Resolution>>, inside: bool)
    requires gb.Valid()
    modifies gb`pos
    ensures gb.Valid() && inside == RendersIn(old(gb.Rest()), k, 0)
    ensures inside ==>
              match GetRenders(old(gb.Rest()), k)
              case Err(e) => r == Err(e)
              case Ok(p) => r == Ok(p.v) && gb.Rest() == p.rest
  {
    hide BytesBits, Get, After;
    ghost var whole := GetRenders(gb.Rest(), k);
    ghost var all := RendersIn(gb.Rest(), k, 0);
    var rs: seq<Resolution> := [];
    AfterNone(whole);
    for i := 0 to k
      invariant gb.Valid() && whole == After(rs, GetRenders(gb.Rest(), k - i))
      invariant all == RendersIn(gb.Rest(), k - i, i)
    {
      RenderTurn(gb.Rest(), k - i, rs);
      if gb.Left() < 32 {
        return Err(EBADMSG), true;
      }
      if i >= MAX_SPATIAL {
        return Err(EBADMSG), false;
      }
      var w := gb.Read(16);
      var h := gb.Read(16);
      rs := rs + [Resolution(w, h)];
    }
    AfterEnd(rs, gb.Rest());
    r, inside := Ok(rs), true;
  }

  lemma RenderTurn(s: Bits, k: nat, rs: seq<Resolution>)
    requires k > 0
    ensures |s| < 32 ==> After(rs, GetRenders(s, k)) == Err(EBADMSG)
    ensures |s| >= 32 ==>
              var w := Get(s, 16);
              var h := Get(w.rest, 16);
              After(rs, GetRenders(s, k)) == After(rs + [Resolution(w.v, h.v)], GetRenders(h.rest, k - 1))
  {
    hide Get;
    if |s| >= 32 {
      var w := Get(s, 16);
      var h := Get(w.rest, 16);
      AfterStep(rs, Resolution(w.v, h.v), GetRenders(h.rest, k - 1));
    }
  }

  /** What follows the layers in template_dependency_structure. */
  method ReadTables(gb: GetBit, offset: nat, dtCnt: nat, layers: seq<Layer>) returns (r: Result<Structure>, inside: bool)
    requires gb.Valid() && 1 <= |layers| <= MAX_TEMPLATES
    modifies gb`pos
    ensures gb.Valid() && inside == TablesIn(old(gb.Rest()), dtCnt, layers)
    ensures inside ==>
              match GetTables(old(gb.Rest()), offset, dtCnt, layers)
              case Err(e) => r == Err(e)
              case Ok(p) => r == Ok(p.v) && gb.Rest() == p.rest
    ensures inside && r.Ok? ==> r.value.dtCnt <= MAX_TARGETS
  {
    hide BytesBits, Get, GetRows, GetAllFdiffs, GetChains, GetRenders, RowsIn, AllFdiffsIn, ChainsIn, RendersIn;
    var cnt := |layers|;
    ghost var s0 := gb.Rest();
    r := Err(EBADMSG);
    var dtis, fdiffs, chains, rs;
    dtis, inside := ReadRows(gb, 2, dtCnt, MAX_TARGETS, cnt);
    if !inside {
      return;
    }
    if dtis.Err? {
      return Err(dtis.error), true;
    }
    TargetsFit(s0, dtCnt, cnt);
    fdiffs, inside := ReadFdiffs(gb, cnt);
    if !inside {
      return;
    }
    if fdiffs.Err? {
      return Err(fdiffs.error), true;
    }
    chains, inside := ReadChains(gb, dtCnt, cnt);
    if !inside {
      return;
    }
    if gb.Left() < 1 {
      return Err(EBADMSG), true;
    }
    var present := gb.Read(1);
    var d := Structure(offset, dtCnt, layers, dtis.value, fdiffs.value, chains, None);
    if present != 1 {
      return Ok(d), true;
    }
    rs, inside := ReadRenders(gb, MaxSpatial(layers) + 1);
    if !inside {
      return;
    }
    if rs.Err? {
      return Err(rs.error), true;
    }
    r := Ok(d.(renders := Some(rs.value)));
  }

  lemma TargetsFit(s: Bits, dtCnt: nat, cnt: nat)
    requires 1 <= cnt <= MAX_TEMPLATES && RowsIn(s, 2, dtCnt, MAX_TARGETS, 0, cnt) && GetRows(s, 2, dtCnt, cnt).Ok?
    ensures dtCnt <= MAX_TARGETS
  {
    RowsInIff(s, 2, dtCnt, MAX_TARGETS, 0, cnt, 34);
    RowsLength(s, dtCnt, cnt);
  }

  /** template_dependency_structure. */
  method ReadStructure(gb: GetBit) returns (r: Result<Structure>, inside: bool)
    requires gb.Valid()
    modifies gb`pos
    ensures gb.Valid() && inside == StructureIn(old(gb.Rest()))
    ensures inside ==>
              match GetStructure(old(gb.Rest()))
              case Err(e) => r == Err(e)
              case Ok(p) => r == Ok(p.v) && gb.Rest() == p.rest
    ensures inside && r.Ok? ==> r.value.dtCnt <= MAX_TARGETS
  {
    hide BytesBits, Get, GetLayers, GetTables, TablesIn;
    if gb.Left() < 11 {
      return Err(EBADMSG), true;
    }
    var offset := gb.Read(6);
    var dt := gb.Read(5);
    var layers := ReadLayers(gb);
    if layers.Err? {
      return Err(layers.error), true;
    }
    r, inside := ReadTables(gb, offset, dt + 1, layers.value);
  }

  /** dd_decode. */
  method DecodeDd(bytes: seq<Byte>) returns (r: Result<Dd>, inside: bool)
    ensures inside == DecodeIn(bytes)
    ensures inside ==> r == Decode(bytes)
  {
    hide BytesBits, Get, GetStructure, ExtIn;
    var gb := new GetBit(bytes);
    ghost var s := BytesBits(bytes);
    NoExt();
    if gb.Left() < 24 {
      return Err(EBADMSG), true;
    }
    var start := gb.Bit();
    var end := gb.Bit();
    assert gb.Rest() == s[2..];
    GetRest(gb.Rest(), 6);
    var id := gb.Read(6);
    GetRest(gb.Rest(), 16);
    var frame := gb.Read(16);
    assert gb.Rest() == s[24..];
    var d := Dd(start, end, id, frame, None);
    if |bytes| <= 3 {
      return Ok(d), true;
    }
    var e;
    e, inside := ReadExt(gb);
    r := if e.Err? then Err(e.error) else Ok(d.(ext := Some(e.value)));
  }

  /** extended_descriptor_fields. */
  method ReadExt(gb: GetBit) returns (r: Result<Ext>, inside: bool)
    requires gb.Valid()
    modifies gb`pos
    ensures gb.Valid() && inside == ExtIn(old(gb.Rest()))
    ensures inside ==> r == GetExt(old(gb.Rest()))
  {
    hide BytesBits, Get, GetStructure, StructureIn;
    ghost var s := gb.Rest();
    if gb.Left() < 5 {
      return Err(EBADMSG), true;
    }
    var present, active, dtis, fdiffs, chains := ReadFlags(gb);
    var e := Ext(None, active, dtis, fdiffs, chains, 0);
    if present {
      var d;
      d, inside := ReadStructure(gb);
      if !inside {
        return Err(EBADMSG), false;
      }
      if d.Err? {
        return Err(d.error), true;
      }
      var bitmask := PowerOf2(d.value.dtCnt);
      bitmask := bitmask - 1;
      if active {
        bitmask := gb.Read(d.value.dtCnt);
      }
      e := e.(structure := Some(d.value), bitmask := bitmask);
    }
    r, inside := Ok(e), true;
  }

  method ReadFlags(gb: GetBit) returns (a: bool, b: bool, c: bool, d: bool, e: bool)
    requires gb.Valid() && gb.Left() >= 5
    modifies gb`pos
    ensures gb.Valid()
    ensures old(gb.Rest()) == [a, b, c, d, e] + gb.Rest()
  {
    hide BytesBits;
    FiveBits(gb.Rest());
    a := gb.Bit();
    b := gb.Bit();
    c := gb.Bit();
    d := gb.Bit();
    e := gb.Bit();
  }

  lemma FiveBits(s: Bits)
    requires |s| >= 5
    ensures var s1 := s[1..];
            var s2 := s1[1..];
            var s3 := s2[1..];
            var s4 := s3[1..];
            s == [s[0], s1[0], s2[0], s3[0], s4[0]] + s4[1..]
  {
    assert s == [s[0], s[1], s[2], s[3], s[4]] + s[5..];
  }
}
