/**
 The Dependency Descriptor of AV1 over RTP: what dd_encode writes, what dd_decode reads, and the
 round trip between them.
 */
module DdCodec {
  import opened Bytes
  import opened DdBits

  // the arrays of struct dd
  const MAX_TEMPLATES := 8
  const MAX_TARGETS := 16
  const MAX_FDIFFS := 16
  const MAX_CHAINS := 32
  const MAX_SPATIAL := 4
  const NO_MORE_TEMPLATES := 3

  /** Spatial and temporal identifier of a template. */
  datatype Layer = Layer(sid: nat, tid: nat)

  datatype Resolution = Resolution(w: nat, h: nat)

  /** Chains: how many, which protects each decode target, and the distances per template. */
  datatype Chains = Chains(cnt: nat, protectedBy: seq<nat>, fdiffs: seq<seq<nat>>)

  datatype Structure = Structure(
    offset: nat, dtCnt: nat, layers: seq<Layer>, dtis: seq<seq<nat>>, fdiffs: seq<seq<nat>>,
    chains: Chains, renders: Option<seq<Resolution>>)

  datatype Ext = Ext(
    structure: Option<Structure>, active: bool, customDtis: bool, customFdiffs: bool, customChains: bool,
    bitmask: nat)

  /** struct dd; parts that are not present are absent here. */
  datatype Dd = Dd(start: bool, end: bool, templateId: nat, frameNumber: nat, ext: Option<Ext>)

  // ---------------------------------------------------------------- encoding

  function Flag(b: bool): Bits { [b] }

  function PutRow(n: nat, vs: seq<nat>): (s: Bits) {
    if vs == [] then [] else ToBits(n, vs[0]) + PutRow(n, vs[1..])
  }

  function PutRows(n: nat, rows: seq<seq<nat>>): (s: Bits) {
    if rows == [] then [] else PutRow(n, rows[0]) + PutRows(n, rows[1..])
  }

  /** next_layer. */
  function NextLayer(a: Layer, b: Layer): (idc: nat)
    ensures idc <= NO_MORE_TEMPLATES
  {
    if b == a then 0
    else if b.sid == a.sid && b.tid == a.tid + 1 then 1
    else if b.sid == a.sid + 1 && b.tid == 0 then 2
    else NO_MORE_TEMPLATES
  }

  /** template_layers: fails at the first step that the format cannot express. */
  function PutLayers(ls: seq<Layer>): (r: Option<Bits>) {
    if |ls| <= 1 then Some(ToBits(2, NO_MORE_TEMPLATES))
    else
      var idc := NextLayer(ls[0], ls[1]);
      if idc == NO_MORE_TEMPLATES then None
      else match PutLayers(ls[1..])
        case None => None
        case Some(rest) => Some(ToBits(2, idc) + rest)
  }

  /** One template's fdiffs: each announced by a 1, the end by a 0. fdiff - 1 in four bits. */
  function PutFdiffs(fs: seq<nat>): (s: Bits)
    ensures |s| >= 1
  {
    if fs == [] then [false] else [true] + ToBits(4, fs[0] + 15) + PutFdiffs(fs[1..])
  }

  function PutAllFdiffs(rows: seq<seq<nat>>): (s: Bits) {
    if rows == [] then [] else PutFdiffs(rows[0]) + PutAllFdiffs(rows[1..])
  }

  function PutNsRow(n: nat, vs: seq<nat>): (s: Bits)
    requires n >= 1
  {
    if vs == [] then [] else ToNs(n, vs[0]) + PutNsRow(n, vs[1..])
  }

  function PutChains(dtCnt: nat, c: Chains): (s: Bits) {
    ToNs(dtCnt + 1, c.cnt) + if c.cnt == 0 then [] else PutNsRow(c.cnt, c.protectedBy) + PutRows(4, c.fdiffs)
  }

  function PutRenders(rs: seq<Resolution>): (s: Bits) {
    if rs == [] then [] else ToBits(16, rs[0].w) + ToBits(16, rs[0].h) + PutRenders(rs[1..])
  }

  function PutStructure(d: Structure): (r: Result<Bits>) {
    match PutLayers(d.layers)
    case None => Err(EBADMSG)
    case Some(layers) =>
      Ok(ToBits(6, d.offset) + (ToBits(5, d.dtCnt + 31) + (layers + (PutRows(2, d.dtis) + (PutAllFdiffs(d.fdiffs)
         + (PutChains(d.dtCnt, d.chains) + (Flag(d.renders.Some?)
         + if d.renders.Some? then PutRenders(d.renders.value) else [])))))))
  }

  function PutExt(e: Ext): (r: Result<Bits>) {
    var flags := [e.structure.Some?, e.active, e.customDtis, e.customFdiffs, e.customChains];
    match (if e.structure.Some? then PutStructure(e.structure.value) else Ok([]))
    case Err(x) => Err(x)
    case Ok(s) => if e.active then Err(ENOTSUP) else Ok(flags + s)
  }

  /** dd_encode. */
  function Encode(d: Dd): (r: Result<Bits>) {
    var head := [d.start, d.end] + (ToBits(6, d.templateId) + ToBits(16, d.frameNumber));
    if d.ext.None? then Ok(head)
    else match PutExt(d.ext.value)
      case Err(x) => Err(x)
      case Ok(s) => Ok(head + s)
  }

  // ---------------------------------------------------------------- decoding

  datatype Parsed<T> = Parsed(v: T, rest: Bits)

  /** k values of n bits. */
  function GetRow(s: Bits, n: nat, k: nat): (r: Result<Parsed<seq<nat>>>)
    decreases k
  {
    if k == 0 then Ok(Parsed([], s))
    else if |s| < n then Err(EBADMSG)
    else
      var g := Get(s, n);
      match GetRow(g.rest, n, k - 1)
      case Err(e) => Err(e)
      case Ok(p) => Ok(Parsed([g.v] + p.v, p.rest))
  }

  function GetRows(s: Bits, n: nat, k: nat, rows: nat): (r: Result<Parsed<seq<seq<nat>>>>)
    decreases rows
  {
    if rows == 0 then Ok(Parsed([], s))
    else match GetRow(s, n, k)
      case Err(e) => Err(e)
      case Ok(p) =>
        match GetRows(p.rest, n, k, rows - 1)
        case Err(e) => Err(e)
        case Ok(q) => Ok(Parsed([p.v] + q.v, q.rest))
  }

  function ApplyIdc(l: Layer, idc: nat): (r: Layer) {
    if idc == 1 then l.(tid := l.tid + 1) else if idc == 2 then Layer(l.sid + 1, 0) else l
  }

  /** template_layers: the layer of template number cnt, then those that follow it. */
  function GetLayers(s: Bits, l: Layer, cnt: nat): (r: Result<Parsed<seq<Layer>>>)
    ensures r.Ok? ==> r.value.v != []
    decreases |s|
  {
    if cnt >= MAX_TEMPLATES then Err(EOVERFLOW)
    else if |s| < 2 then Err(EBADMSG)
    else
      var g := Get(s, 2);
      if g.v == NO_MORE_TEMPLATES then Ok(Parsed([l], g.rest))
      else match GetLayers(g.rest, ApplyIdc(l, g.v), cnt + 1)
        case Err(e) => Err(e)
        case Ok(p) => Ok(Parsed([l] + p.v, p.rest))
  }

  /** The fdiffs of one template, after its first flag has been read. */
  function GetFdiffs(s: Bits, follows: bool): (r: Result<Parsed<seq<nat>>>)
    decreases |s|
  {
    if !follows then Ok(Parsed([], s))
    else if |s| < 5 then Err(EBADMSG)
    else
      var g := Get(s, 4);
      var f := Get(g.rest, 1);
      match GetFdiffs(f.rest, f.v == 1)
      case Err(e) => Err(e)
      case Ok(p) => Ok(Parsed([g.v + 1] + p.v, p.rest))
  }

  function GetAllFdiffs(s: Bits, rows: nat): (r: Result<Parsed<seq<seq<nat>>>>)
    decreases rows
  {
    if rows == 0 then Ok(Parsed([], s))
    else if |s| < 1 then Err(EBADMSG)
    else
      var f := Get(s, 1);
      match GetFdiffs(f.rest, f.v == 1)
      case Err(e) => Err(e)
      case Ok(p) =>
        match GetAllFdiffs(p.rest, rows - 1)
        case Err(e) => Err(e)
        case Ok(q) => Ok(Parsed([p.v] + q.v, q.rest))
  }

  function GetNsRow(s: Bits, n: nat, k: nat): (r: Parsed<seq<nat>>)
    requires n >= 1
    decreases k
  {
    if k == 0 then Parsed([], s)
    else
      var g := GetNs(s, n);
      var p := GetNsRow(g.rest, n, k - 1);
      Parsed([g.v] + p.v, p.rest)
  }

  /** Rows that read as 0 once the bits run out: the caller ignores that error. */
  function GetRow0(s: Bits, n: nat, k: nat): (r: Parsed<seq<nat>>)
    decreases k
  {
    if k == 0 then Parsed([], s)
    else
      var g := Get(s, n);
      var p := GetRow0(g.rest, n, k - 1);
      Parsed([g.v] + p.v, p.rest)
  }

  function GetRows0(s: Bits, n: nat, k: nat, rows: nat): (r: Parsed<seq<seq<nat>>>)
    decreases rows
  {
    if rows == 0 then Parsed([], s)
    else
      var p := GetRow0(s, n, k);
      var q := GetRows0(p.rest, n, k, rows - 1);
      Parsed([p.v] + q.v, q.rest)
  }

  function GetChains(s: Bits, dtCnt: nat, rows: nat): (r: Parsed<Chains>) {
    var c := GetNs(s, dtCnt + 1);
    if c.v == 0 then Parsed(Chains(0, [], []), c.rest)
    else
      var p := GetNsRow(c.rest, c.v, dtCnt);
      var q := GetRows0(p.rest, 4, c.v, rows);
      Parsed(Chains(c.v, p.v, q.v), q.rest)
  }

  function GetRenders(s: Bits, k: nat): (r: Result<Parsed<seq<Resolution>>>)
    decreases k
  {
    if k == 0 then Ok(Parsed([], s))
    else if |s| < 32 then Err(EBADMSG)
    else
      var w := Get(s, 16);
      var h := Get(w.rest, 16);
      match GetRenders(h.rest, k - 1)
      case Err(e) => Err(e)
      case Ok(p) => Ok(Parsed([Resolution(w.v, h.v)] + p.v, p.rest))
  }

  /** max_spatial_id: that of the last template. */
  function MaxSpatial(ls: seq<Layer>): nat
    requires ls != []
  {
    ls[|ls| - 1].sid
  }

  function GetStructure(s: Bits): (r: Result<Parsed<Structure>>) {
    if |s| < 11 then Err(EBADMSG)
    else
      var offset := Get(s, 6);
      var dt := Get(offset.rest, 5);
      match GetLayers(dt.rest, Layer(0, 0), 0)
      case Err(e) => Err(e)
      case Ok(layers) => GetTables(layers.rest, offset.v, dt.v + 1, layers.v)
  }

  /** What follows the layers: tables whose size the layers and the decode targets give. */
  function GetTables(s: Bits, offset: nat, dtCnt: nat, layers: seq<Layer>): (r: Result<Parsed<Structure>>)
    requires layers != []
  {
    match GetRows(s, 2, dtCnt, |layers|)
    case Err(e) => Err(e)
    case Ok(dtis) =>
      match GetAllFdiffs(dtis.rest, |layers|)
      case Err(e) => Err(e)
      case Ok(fdiffs) =>
        var chains := GetChains(fdiffs.rest, dtCnt, |layers|);
        if |chains.rest| < 1 then Err(EBADMSG)
        else
          var present := Get(chains.rest, 1);
          if present.v != 1 then
            Ok(Parsed(Structure(offset, dtCnt, layers, dtis.v, fdiffs.v, chains.v, None), present.rest))
          else match GetRenders(present.rest, MaxSpatial(layers) + 1)
            case Err(e) => Err(e)
            case Ok(rs) =>
              Ok(Parsed(Structure(offset, dtCnt, layers, dtis.v, fdiffs.v, chains.v, Some(rs.v)), rs.rest))
  }

  function GetExt(s: Bits): (r: Result<Ext>) {
    if |s| < 5 then Err(EBADMSG)
    else
      var flags := Ext(None, s[1], s[2], s[3], s[4], 0);
      if !s[0] then Ok(flags)
      else match GetStructure(s[5..])
        case Err(e) => Err(e)
        case Ok(p) =>
          Ok(flags.(structure := Some(p.v),
                    bitmask := if s[1] then Get(p.rest, p.v.dtCnt).v else Pow2(p.v.dtCnt) - 1))
  }

  /** dd_decode: more than three bytes means that the extended fields are there. */
  function Decode(bytes: seq<Byte>): (r: Result<Dd>) {
    var s := BytesBits(bytes);
    if |s| < 24 then Err(EBADMSG)
    else
      var id := Get(s[2..], 6);
      var frame := Get(id.rest, 16);
      var d := Dd(s[0], s[1], id.v, frame.v, None);
      if |bytes| <= 3 then Ok(d)
      else match GetExt(frame.rest)
        case Err(e) => Err(e)
        case Ok(e) => Ok(d.(ext := Some(e)))
  }

  // ---------------------------------------------------------------- legal descriptors

  ghost predicate RowOk(vs: seq<nat>, len: nat, bound: nat) {
    |vs| == len && forall i :: 0 <= i < |vs| ==> vs[i] < bound
  }

  ghost predicate RowsOk(rows: seq<seq<nat>>, cnt: nat, len: nat, bound: nat) {
    |rows| == cnt && forall i :: 0 <= i < |rows| ==> RowOk(rows[i], len, bound)
  }

  ghost predicate LayersOk(ls: seq<Layer>) {
    1 <= |ls| <= 8 && ls[0] == Layer(0, 0) && StepsOk(ls)
  }

  /** Each template is the same layer as the one before it, or the next temporal or spatial layer. */
  ghost predicate StepsOk(ls: seq<Layer>) {
    |ls| <= 1 || (NextLayer(ls[0], ls[1]) != NO_MORE_TEMPLATES && StepsOk(ls[1..]))
  }

  ghost predicate FdiffsOk(rows: seq<seq<nat>>, cnt: nat) {
    |rows| == cnt && forall i, j :: 0 <= i < |rows| && 0 <= j < |rows[i]| ==> 1 <= rows[i][j] <= 16
  }

  ghost predicate ChainsOk(c: Chains, dtCnt: nat, templates: nat) {
    if c.cnt == 0 then c.protectedBy == [] && c.fdiffs == []
    else c.cnt <= dtCnt && RowOk(c.protectedBy, dtCnt, c.cnt) && RowsOk(c.fdiffs, templates, c.cnt, 16)
  }

  ghost predicate RendersOk(rs: seq<Resolution>) {
    forall i :: 0 <= i < |rs| ==> rs[i].w < 0x1_0000 && rs[i].h < 0x1_0000
  }

  /** The tables are no larger than the arrays of struct dd. */
  ghost predicate FitsArrays(d: Structure) {
    && d.dtCnt <= 16
    && (forall i :: 0 <= i < |d.fdiffs| ==> |d.fdiffs[i]| <= 16)
    && (d.renders.Some? ==> |d.renders.value| <= 4)
  }

  ghost predicate StructureOk(d: Structure) {
    && d.offset < 64 && 1 <= d.dtCnt && LayersOk(d.layers) && FitsArrays(d)
    && RowsOk(d.dtis, |d.layers|, d.dtCnt, 4) && FdiffsOk(d.fdiffs, |d.layers|)
    && ChainsOk(d.chains, d.dtCnt, |d.layers|)
    && (d.renders.Some? ==> |d.renders.value| == MaxSpatial(d.layers) + 1 && RendersOk(d.renders.value))
  }

  /** Every field in its range, and no active decode targets, which the encoder does not support. */
  ghost predicate Legal(d: Dd) {
    && d.templateId < 64 && d.frameNumber < 0x1_0000
    && (d.ext.Some? ==>
          var e := d.ext.value;
          && !e.active && (e.structure.Some? ==> StructureOk(e.structure.value))
          && e.bitmask == if e.structure.Some? then Pow2(e.structure.value.dtCnt) - 1 else 0)
  }

  // ---------------------------------------------------------------- round trip

  lemma HeadTail(a: Bits, b: Bits)
    requires a != []
    ensures a + b == [a[0]] + (a[1..] + b)
  {
    assert a == [a[0]] + a[1..];
    Assoc([a[0]], a[1..], b);
  }

  lemma {:induction false} RowRoundTrip(n: nat, vs: seq<nat>, rest: Bits)
    requires forall i :: 0 <= i < |vs| ==> vs[i] < Pow2(n)
    ensures GetRow(PutRow(n, vs) + rest, n, |vs|) == Ok(Parsed(vs, rest))
    ensures GetRow0(PutRow(n, vs) + rest, n, |vs|) == Parsed(vs, rest)
  {
    hide Get, ToBits, Pow2;
    if vs == [] {
      assert [] + rest == rest;
    } else {
      RowRoundTrip(n, vs[1..], rest);
      GetPut(n, vs[0], PutRow(n, vs[1..]) + rest);
      Assoc(ToBits(n, vs[0]), PutRow(n, vs[1..]), rest);
      assert [vs[0]] + vs[1..] == vs;
    }
  }

  lemma {:induction false} RowsRoundTrip(n: nat, k: nat, rows: seq<seq<nat>>, rest: Bits)
    requires RowsOk(rows, |rows|, k, Pow2(n))
    ensures GetRows(PutRows(n, rows) + rest, n, k, |rows|) == Ok(Parsed(rows, rest))
    ensures GetRows0(PutRows(n, rows) + rest, n, k, |rows|) == Parsed(rows, rest)
  {
    hide GetRow, GetRow0, PutRow, Pow2;
    if rows == [] {
      assert [] + rest == rest;
    } else {
      assert RowOk(rows[0], k, Pow2(n));
      RowsRoundTrip(n, k, rows[1..], rest);
      RowRoundTrip(n, rows[0], PutRows(n, rows[1..]) + rest);
      Assoc(PutRow(n, rows[0]), PutRows(n, rows[1..]), rest);
      assert [rows[0]] + rows[1..] == rows;
    }
  }

  lemma {:induction false} LayersRoundTrip(ls: seq<Layer>, cnt: nat, rest: Bits)
    requires ls != [] && cnt + |ls| <= MAX_TEMPLATES && StepsOk(ls)
    ensures PutLayers(ls).Some?
    ensures GetLayers(PutLayers(ls).value + rest, ls[0], cnt) == Ok(Parsed(ls, rest))
  {
    hide Get, ToBits;
    TwoBits();
    if |ls| == 1 {
      GetPut(2, NO_MORE_TEMPLATES, rest);
      assert [ls[0]] == ls;
    } else {
      var idc := NextLayer(ls[0], ls[1]);
      LayersRoundTrip(ls[1..], cnt + 1, rest);
      var tail := PutLayers(ls[1..]).value;
      GetPut(2, idc, tail + rest);
      Assoc(ToBits(2, idc), tail, rest);
      assert ApplyIdc(ls[0], idc) == ls[1];
      assert [ls[0]] + ls[1..] == ls;
    }
  }

  /** More than eight templates are refused as such, before anything is read of the ninth. */
  lemma {:induction false} TooManyTemplates(ls: seq<Layer>, cnt: nat, rest: Bits)
    requires ls != [] && cnt <= 8 < cnt + |ls| && StepsOk(ls)
    ensures PutLayers(ls).Some?
    ensures GetLayers(PutLayers(ls).value + rest, ls[0], cnt) == Err(EOVERFLOW)
  {
    hide Get, ToBits;
    LayersPut(ls);
    if cnt < 8 {
      TwoBits();
      var idc := NextLayer(ls[0], ls[1]);
      TooManyTemplates(ls[1..], cnt + 1, rest);
      var tail := PutLayers(ls[1..]).value;
      GetPut(2, idc, tail + rest);
      Assoc(ToBits(2, idc), tail, rest);
      assert ApplyIdc(ls[0], idc) == ls[1];
    }
  }

  lemma TwoBits()
    ensures Pow2(1) == 2 && Pow2(2) == 4 && Pow2(4) == 16 && Pow2(5) == 32 && Pow2(6) == 64 && Pow2(16) == 0x1_0000
  {
    assert Pow2(4) == 16 && Pow2(8) == 256 && Pow2(12) == 4096;
  }

  lemma GetFlag(b: bool, rest: Bits)
    ensures Get([b] + rest, 1) == Got(if b then 1 else 0, rest)
  {
    assert ([b] + rest)[..1] == [b] && ([b] + rest)[1..] == rest;
    assert [b][..0] == [] && FromBits([]) == 0;
    assert FromBits([b]) == 2 * FromBits([b][..0]) + if b then 1 else 0;
  }

  /** Low four bits of f + 15 are those of f - 1. */
  lemma {:induction false} LowBits(n: nat, v: nat, w: nat)
    requires v % Pow2(n) == w % Pow2(n)
    ensures ToBits(n, v) == ToBits(n, w)
  {
    if n > 0 {
      ModHalf(v, Pow2(n - 1));
      ModHalf(w, Pow2(n - 1));
      LowBits(n - 1, v / 2, w / 2);
    }
  }

  lemma ModHalf(v: nat, p: nat)
    requires p >= 1
    ensures v % (2 * p) == 2 * (v / 2 % p) + v % 2
  {
    DivDiv(v, p);
    var q := v / (2 * p);
    assert v == (2 * p) * q + v % (2 * p);
    assert v / 2 == p * q + v / 2 % p;
  }

  lemma FdiffBits(f: nat)
    requires 1 <= f <= 16
    ensures ToBits(4, f + 15) == ToBits(4, f - 1) && f - 1 < Pow2(4)
  {
    hide ToBits;
    TwoBits();
    LowBits(4, f + 15, f - 1);
  }

  lemma {:induction false} FdiffsRoundTrip(fs: seq<nat>, rest: Bits)
    requires forall i :: 0 <= i < |fs| ==> 1 <= fs[i] <= 16
    ensures PutFdiffs(fs)[0] == (fs != [])
    ensures GetFdiffs(PutFdiffs(fs)[1..] + rest, fs != []) == Ok(Parsed(fs, rest))
  {
    hide Get, ToBits, Pow2;
    if fs == [] {
      assert [false][1..] + rest == rest;
    } else {
      var tail := PutFdiffs(fs[1..]);
      FdiffsRoundTrip(fs[1..], rest);
      FdiffBits(fs[0]);
      var v := ToBits(4, fs[0] - 1);
      assert PutFdiffs(fs)[1..] == v + tail;
      Assoc(v, tail, rest);
      GetPut(4, fs[0] - 1, tail + rest);
      HeadTail(tail, rest);
      GetFlag(tail[0], tail[1..] + rest);
      assert [fs[0]] + fs[1..] == fs;
    }
  }

  lemma {:induction false} AllFdiffsRoundTrip(rows: seq<seq<nat>>, rest: Bits)
    requires FdiffsOk(rows, |rows|)
    ensures GetAllFdiffs(PutAllFdiffs(rows) + rest, |rows|) == Ok(Parsed(rows, rest))
  {
    hide Get, PutFdiffs, GetFdiffs;
    if rows == [] {
      assert [] + rest == rest;
    } else {
      var tail := PutAllFdiffs(rows[1..]) + rest;
      AllFdiffsRoundTrip(rows[1..], rest);
      FdiffsRoundTrip(rows[0], tail);
      var f := PutFdiffs(rows[0]);
      Assoc(f, PutAllFdiffs(rows[1..]), rest);
      HeadTail(f, tail);
      GetFlag(f[0], f[1..] + tail);
      assert [rows[0]] + rows[1..] == rows;
    }
  }

  lemma {:induction false} NsRowRoundTrip(n: nat, vs: seq<nat>, rest: Bits)
    requires n >= 1 && forall i :: 0 <= i < |vs| ==> vs[i] < n
    ensures GetNsRow(PutNsRow(n, vs) + rest, n, |vs|) == Parsed(vs, rest)
  {
    hide GetNs, ToNs;
    if vs == [] {
      assert [] + rest == rest;
    } else {
      NsRowRoundTrip(n, vs[1..], rest);
      NsRoundTrip(n, vs[0], PutNsRow(n, vs[1..]) + rest);
      Assoc(ToNs(n, vs[0]), PutNsRow(n, vs[1..]), rest);
      assert [vs[0]] + vs[1..] == vs;
    }
  }

  lemma ChainsRoundTrip(c: Chains, dtCnt: nat, rows: nat, rest: Bits)
    requires ChainsOk(c, dtCnt, rows)
    ensures GetChains(PutChains(dtCnt, c) + rest, dtCnt, rows) == Parsed(c, rest)
  {
    hide GetNs, ToNs, GetNsRow, PutNsRow, GetRows0, PutRows;
    TwoBits();
    var head := ToNs(dtCnt + 1, c.cnt);
    if c.cnt == 0 {
      assert head + [] + rest == head + rest;
      NsRoundTrip(dtCnt + 1, 0, rest);
    } else {
      var a, b := PutNsRow(c.cnt, c.protectedBy), PutRows(4, c.fdiffs);
      assert head + (a + b) + rest == head + (a + (b + rest));
      NsRoundTrip(dtCnt + 1, c.cnt, a + (b + rest));
      NsRowRoundTrip(c.cnt, c.protectedBy, b + rest);
      RowsRoundTrip(4, c.cnt, c.fdiffs, rest);
    }
  }

  lemma {:induction false} RendersRoundTrip(rs: seq<Resolution>, rest: Bits)
    requires RendersOk(rs)
    ensures GetRenders(PutRenders(rs) + rest, |rs|) == Ok(Parsed(rs, rest))
  {
    hide Get, ToBits;
    if rs == [] {
      assert [] + rest == rest;
    } else {
      TwoBits();
      var tail := PutRenders(rs[1..]) + rest;
      RendersRoundTrip(rs[1..], rest);
      var w, h := ToBits(16, rs[0].w), ToBits(16, rs[0].h);
      Assoc(w + h, PutRenders(rs[1..]), rest);
      Assoc(w, h, tail);
      GetPut(16, rs[0].w, h + tail);
      GetPut(16, rs[0].h, tail);
      assert rs[0] == Resolution(rs[0].w, rs[0].h);
      assert [rs[0]] + rs[1..] == rs;
    }
  }

  lemma StructureRoundTrip(d: Structure, rest: Bits)
    requires StructureOk(d)
    ensures PutStructure(d).Ok?
    ensures GetStructure(PutStructure(d).value + rest) == Ok(Parsed(d, rest))
  {
    hide Get, ToBits, PutRows, GetRows, PutAllFdiffs, GetAllFdiffs, PutChains, GetChains, PutRenders, GetRenders,
      PutLayers, GetLayers, GetTables, ChainsOk, RowsOk, FdiffsOk, RendersOk, StepsOk;
    TwoBits();
    LayersRoundTrip(d.layers, 0, []);
    var layers := PutLayers(d.layers).value;
    var renders := if d.renders.Some? then PutRenders(d.renders.value) else [];
    var tables := PutRows(2, d.dtis) + (PutAllFdiffs(d.fdiffs) + (PutChains(d.dtCnt, d.chains) + (Flag(d.renders.Some?) + renders)));
    var a, b := ToBits(6, d.offset), ToBits(5, d.dtCnt + 31);
    LowBits(5, d.dtCnt + 31, d.dtCnt - 1);
    assert PutStructure(d).value == a + (b + (layers + tables));
    Assoc(a, b + (layers + tables), rest);
    Assoc(b, layers + tables, rest);
    Assoc(layers, tables, rest);
    GetPut(6, d.offset, b + (layers + (tables + rest)));
    GetPut(5, d.dtCnt - 1, layers + (tables + rest));
    LayersRoundTrip(d.layers, 0, tables + rest);
    TablesRoundTrip(d, rest);
  }

  lemma TablesRoundTrip(d: Structure, rest: Bits)
    requires StructureOk(d)
    ensures var renders := if d.renders.Some? then PutRenders(d.renders.value) else [];
            var tables := PutRows(2, d.dtis) + (PutAllFdiffs(d.fdiffs) + (PutChains(d.dtCnt, d.chains) + (Flag(d.renders.Some?) + renders)));
            GetTables(tables + rest, d.offset, d.dtCnt, d.layers) == Ok(Parsed(d, rest))
  {
    hide Get, ToBits, PutRows, GetRows, PutAllFdiffs, GetAllFdiffs, PutChains, GetChains, PutRenders, GetRenders,
      ChainsOk, RendersOk, LayersOk;
    TwoBits();
    var renders := if d.renders.Some? then PutRenders(d.renders.value) else [];
    var p, q, r, f := PutRows(2, d.dtis), PutAllFdiffs(d.fdiffs), PutChains(d.dtCnt, d.chains), Flag(d.renders.Some?);
    Assoc(p, q + (r + (f + renders)), rest);
    Assoc(q, r + (f + renders), rest);
    Assoc(r, f + renders, rest);
    Assoc(f, renders, rest);
    RowsRoundTrip(2, d.dtCnt, d.dtis, q + (r + (f + (renders + rest))));
    AllFdiffsRoundTrip(d.fdiffs, r + (f + (renders + rest)));
    ChainsRoundTrip(d.chains, d.dtCnt, |d.layers|, f + (renders + rest));
    GetFlag(d.renders.Some?, renders + rest);
    if d.renders.Some? {
      RendersRoundTrip(d.renders.value, rest);
    } else {
      assert [] + rest == rest;
    }
  }

  lemma ExtRoundTrip(d: Dd, rest: Bits)
    requires Legal(d) && d.ext.Some?
    ensures PutExt(d.ext.value).Ok?
    ensures GetExt(PutExt(d.ext.value).value + rest) == Ok(d.ext.value)
    ensures |PutExt(d.ext.value).value| >= 5
  {
    hide GetStructure, PutStructure, StructureOk, Pow2;
    var e := d.ext.value;
    var flags := [e.structure.Some?, e.active, e.customDtis, e.customFdiffs, e.customChains];
    if e.structure.Some? {
      StructureRoundTrip(e.structure.value, rest);
      var s := PutStructure(e.structure.value).value;
      assert (flags + s + rest)[5..] == s + rest;
    } else {
      assert flags + [] == flags;
    }
  }

  /** Legal descriptors are the ones that have an encoding. */
  lemma Encodes(d: Dd)
    requires Legal(d)
    ensures Encode(d).Ok?
    ensures |Encode(d).value| > 24 <==> d.ext.Some?
  {
    hide PutExt, StructureOk, Pow2;
    if d.ext.Some? {
      ExtRoundTrip(d, []);
    }
  }

  lemma {:induction false} LayersPut(ls: seq<Layer>)
    ensures PutLayers(ls).Some? <==> StepsOk(ls)
  {
    hide ToBits;
    if |ls| > 1 {
      LayersPut(ls[1..]);
    }
  }

  /**
   What is refused: a step between layers that the format cannot express, else active decode targets,
   and nothing else. A number too large for its field loses its high bits.
   */
  lemma EncodeRefuses(d: Dd)
    ensures var steps := d.ext.Some? && d.ext.value.structure.Some? && !StepsOk(d.ext.value.structure.value.layers);
            && (Encode(d) == Err(EBADMSG) <==> steps)
            && (Encode(d) == Err(ENOTSUP) <==> !steps && d.ext.Some? && d.ext.value.active)
            && (Encode(d).Ok? <==> !steps && !(d.ext.Some? && d.ext.value.active))
  {
    hide ToBits, PutLayers, StepsOk, PutRows, PutAllFdiffs, PutChains, PutRenders;
    if d.ext.Some? && d.ext.value.structure.Some? {
      LayersPut(d.ext.value.structure.value.layers);
    }
  }

  /** Fewer than three bytes are refused, three are the mandatory fields, and more are extended. */
  lemma BySize(bytes: seq<Byte>)
    ensures |bytes| < 3 ==> Decode(bytes) == Err(EBADMSG)
    ensures |bytes| == 3 ==> Decode(bytes).Ok? && Decode(bytes).value.ext.None?
    ensures |bytes| > 3 && Decode(bytes).Ok? ==> Decode(bytes).value.ext.Some?
  {
    hide Get, GetExt;
  }

  /**
   The law of the codec: decoding the bytes of an encoded descriptor, with any bits to fill up the
   last byte, gives back every field that was sent.
   */
  lemma RoundTrip(d: Dd, bytes: seq<Byte>)
    requires Legal(d) && Encode(d).Ok?
    requires Encode(d).value <= BytesBits(bytes) && |bytes| == (|Encode(d).value| + 7) / 8
    ensures Decode(bytes) == Ok(d)
  {
    hide Get, ToBits, Encode, Decode, PutExt, GetExt, Pow2, BytesBits, StructureOk;
    Encodes(d);
    EncodeForm(d);
    var all, s := Encode(d).value, BytesBits(bytes);
    var ext := if d.ext.Some? then PutExt(d.ext.value).value else [];
    var pad := s[|all|..];
    HeadBits(d, s, ext, pad);
    if d.ext.Some? {
      ExtRoundTrip(d, pad);
    }
    DecodeForm(bytes, d, ext + pad);
  }

  lemma EncodeForm(d: Dd)
    requires Encode(d).Ok?
    ensures d.ext.Some? ==> PutExt(d.ext.value).Ok?
    ensures var ext := if d.ext.Some? then PutExt(d.ext.value).value else [];
            Encode(d).value == [d.start, d.end] + (ToBits(6, d.templateId) + ToBits(16, d.frameNumber)) + ext
  {
    hide ToBits, PutExt;
  }

  /** The mandatory fields at the start of the bits. */
  ghost predicate Head(d: Dd, s: Bits, rest: Bits) {
    && |s| >= 24 && s[0] == d.start && s[1] == d.end
    && var id := Get(s[2..], 6);
       id.v == d.templateId && Get(id.rest, 16) == Got(d.frameNumber, rest)
  }

  lemma HeadBits(d: Dd, s: Bits, ext: Bits, pad: Bits)
    requires d.templateId < 64 && d.frameNumber < 0x1_0000
    requires var all := [d.start, d.end] + (ToBits(6, d.templateId) + ToBits(16, d.frameNumber)) + ext;
             all <= s && pad == s[|all|..]
    ensures Head(d, s, ext + pad)
  {
    hide Get, ToBits, Pow2;
    TwoBits();
    var id, fr := ToBits(6, d.templateId), ToBits(16, d.frameNumber);
    Front(d.start, d.end, id, fr, ext, pad, s);
    GetPut(6, d.templateId, fr + (ext + pad));
    GetPut(16, d.frameNumber, ext + pad);
  }

  lemma DecodeForm(bytes: seq<Byte>, d: Dd, rest: Bits)
    requires Head(d, BytesBits(bytes), rest)
    requires |bytes| > 3 <==> d.ext.Some?
    requires d.ext.Some? ==> GetExt(rest) == Ok(d.ext.value)
    ensures Decode(bytes) == Ok(d)
  {
    hide Get, GetExt, BytesBits;
  }

  lemma Front(x: bool, y: bool, a: Bits, b: Bits, c: Bits, pad: Bits, s: Bits)
    requires [x, y] + (a + b) + c <= s && pad == s[|[x, y] + (a + b) + c|..]
    ensures |s| >= 2 && s[0] == x && s[1] == y && s[2..] == a + (b + (c + pad))
  {
    var all := [x, y] + (a + b) + c;
    assert s == all + pad;
    assert all + pad == [x, y] + ((a + b) + (c + pad));
    Assoc(a, b, c + pad);
  }
}
