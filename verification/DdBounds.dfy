/**
 Where dd_decode writes. The tables of struct dd are arrays of fixed size and the decoder checks
 only the number of templates, so a byte string can make it write outside them. The predicates
 follow the decoder write by write; the theorems say which byte strings they hold for.
 */
module DdBounds {
  import opened Arith
  import opened Bytes
  import opened DdBits
  import opened DdCodec

  // ---------------------------------------------------------------- every write

  /** k values of n bits into entries i, i + 1, ... of an array. */
  ghost predicate RowIn(s: Bits, n: nat, k: nat, i: nat, limit: nat)
    decreases k
  {
    k == 0 || |s| < n || (i < limit && RowIn(Get(s, n).rest, n, k - 1, i + 1, limit))
  }

  /** Rows t, t + 1, ... of a table, until the bits run out. */
  ghost predicate RowsIn(s: Bits, n: nat, k: nat, limit: nat, t: nat, rows: nat)
    decreases rows
  {
    rows == 0 ||
    (t < MAX_TEMPLATES && RowIn(s, n, k, 0, limit) &&
     match GetRow(s, n, k)
     case Err(_) => true
     case Ok(p) => RowsIn(p.rest, n, k, limit, t + 1, rows - 1))
  }

  /** The fdiffs of one template, from number i on, after a flag has been read. */
  ghost predicate FdiffsIn(s: Bits, follows: bool, i: nat)
    decreases |s|
  {
    !follows || |s| < 5 ||
    (i < MAX_FDIFFS && FdiffsIn(Get(Get(s, 4).rest, 1).rest, Get(Get(s, 4).rest, 1).v == 1, i + 1))
  }

  ghost predicate AllFdiffsIn(s: Bits, t: nat, rows: nat)
    decreases rows
  {
    rows == 0 || |s| < 1 ||
    (t < MAX_TEMPLATES && FdiffsIn(Get(s, 1).rest, Get(s, 1).v == 1, 0) &&
     match GetFdiffs(Get(s, 1).rest, Get(s, 1).v == 1)
     case Err(_) => true
     case Ok(p) => AllFdiffsIn(p.rest, t + 1, rows - 1))
  }

  /** All protections are written, bits or not; the distances only while there are bits. */
  ghost predicate ChainsIn(s: Bits, dtCnt: nat, rows: nat) {
    var c := GetNs(s, dtCnt + 1);
    c.v == 0 ||
    (dtCnt <= MAX_TARGETS && RowsIn(GetNsRow(c.rest, c.v, dtCnt).rest, 4, c.v, MAX_CHAINS, 0, rows))
  }

  ghost predicate RendersIn(s: Bits, k: nat, i: nat)
    decreases k
  {
    k == 0 || |s| < 32 || (i < MAX_SPATIAL && RendersIn(Get(Get(s, 16).rest, 16).rest, k - 1, i + 1))
  }

  ghost predicate TablesIn(s: Bits, dtCnt: nat, layers: seq<Layer>)
    requires layers != []
  {
    RowsIn(s, 2, dtCnt, MAX_TARGETS, 0, |layers|) &&
    match GetRows(s, 2, dtCnt, |layers|)
    case Err(_) => true
    case Ok(dtis) =>
      AllFdiffsIn(dtis.rest, 0, |layers|) &&
      match GetAllFdiffs(dtis.rest, |layers|)
      case Err(_) => true
      case Ok(fdiffs) =>
        ChainsIn(fdiffs.rest, dtCnt, |layers|) &&
        var rest := GetChains(fdiffs.rest, dtCnt, |layers|).rest;
        (|rest| < 1 || Get(rest, 1).v != 1 || RendersIn(Get(rest, 1).rest, MaxSpatial(layers) + 1, 0))
  }

  ghost predicate StructureIn(s: Bits) {
    |s| < 11 ||
    var dt := Get(Get(s, 6).rest, 5);
    match GetLayers(dt.rest, Layer(0, 0), 0)
    case Err(_) => true
    case Ok(layers) => TablesIn(layers.rest, dt.v + 1, layers.v)
  }

  /** And 1u << dt_cnt is defined. */
  ghost predicate ExtIn(s: Bits) {
    |s| < 5 || !s[0] ||
    (StructureIn(s[5..]) && (GetStructure(s[5..]).Ok? ==> GetStructure(s[5..]).value.v.dtCnt < 32))
  }

  /** The bits of the extended fields. */
  function ExtBits(bytes: seq<Byte>): (s: Bits) {
    if |bytes| <= 3 then [] else BytesBits(bytes)[24..]
  }

  /** dd_decode keeps every write inside its array. */
  ghost predicate DecodeIn(bytes: seq<Byte>) {
    ExtIn(ExtBits(bytes))
  }

  // ---------------------------------------------------------------- closed forms

  lemma GetRest(s: Bits, n: nat)
    requires |s| >= n
    ensures Get(s, n).rest == s[n..]
  {
  }

  /** A row stays inside exactly when it is short enough, or the bits run out in time. */
  lemma {:induction false} RowInIff(s: Bits, n: nat, k: nat, i: nat, limit: nat, need: nat)
    requires n >= 1 && i <= limit && need == (limit - i + 1) * n
    ensures RowIn(s, n, k, i, limit) <==> k <= limit - i || |s| < need
    decreases k
  {
    hide Get;
    if i < limit {
      Distribute(limit - i + 1, 1, n);
      Nonneg(limit - i, n);
      if k > 0 && |s| >= n {
        GetRest(s, n);
        RowInIff(Get(s, n).rest, n, k - 1, i + 1, limit, need - n);
      }
    }
  }

  lemma {:induction false} RowNeeds(s: Bits, n: nat, k: nat, need: nat)
    requires need == k * n
    ensures GetRow(s, n, k).Ok? <==> |s| >= need || k == 0
    ensures GetRow(s, n, k).Ok? ==> |GetRow(s, n, k).value.v| == k && GetRow(s, n, k).value.rest == s[need..]
    decreases k
  {
    hide Get;
    if k > 0 {
      Distribute(k, 1, n);
      Nonneg(k - 1, n);
      if |s| >= n {
        GetRest(s, n);
        RowNeeds(Get(s, n).rest, n, k - 1, need - n);
        if |s| >= need {
          assert s[n..][need - n..] == s[need..];
        }
      }
    }
  }

  /** A table stays inside exactly when its first row does: the others are as long. */
  lemma {:induction false} RowsInIff(s: Bits, n: nat, k: nat, limit: nat, t: nat, rows: nat, need: nat)
    requires n >= 1 && t + rows <= MAX_TEMPLATES && need == (limit + 1) * n
    ensures RowsIn(s, n, k, limit, t, rows) <==> rows == 0 || k <= limit || |s| < need
    decreases rows
  {
    hide RowIn, GetRow;
    if rows > 0 {
      RowInIff(s, n, k, 0, limit, need);
      RowNeeds(s, n, k, k * n);
      if k <= limit {
        if GetRow(s, n, k).Ok? {
          RowsInIff(GetRow(s, n, k).value.rest, n, k, limit, t + 1, rows - 1, need);
        }
      } else {
        Scale(n, limit + 1, k);
      }
    }
  }

  /** Seventeen fdiffs are announced, and their bits are there. */
  ghost predicate TooMany(s: Bits, follows: bool, i: nat)
    requires i <= 16
  {
    follows && |s| >= 5 * (16 - i + 1) && forall j :: 1 <= j <= 16 - i ==> FlagAt(s, j)
  }

  /** The flag after the j-th value of four bits. */
  ghost predicate FlagAt(s: Bits, j: int) {
    1 <= j && 5 * j <= |s| && s[5 * j - 1]
  }

  lemma NextFlag(s: Bits)
    requires |s| >= 5
    ensures Get(Get(s, 4).rest, 1).rest == s[5..] && (Get(Get(s, 4).rest, 1).v == 1 <==> s[4])
  {
    assert s[4..][..1] == [s[4]];
    GetFlag(s[4], s[5..]);
    assert s[4..] == [s[4]] + s[5..];
  }

  lemma {:induction false} FdiffsInIff(s: Bits, follows: bool, i: nat)
    requires i <= MAX_FDIFFS
    ensures FdiffsIn(s, follows, i) <==> !TooMany(s, follows, i)
    decreases |s|
  {
    hide Get;
    if follows && |s| >= 5 && i < MAX_FDIFFS {
      NextFlag(s);
      FdiffsInIff(s[5..], s[4], i + 1);
      if |s| >= 5 * (MAX_FDIFFS - i + 1) {
        FlagsShift(s, MAX_FDIFFS - i);
      }
    }
  }

  lemma FlagsShift(s: Bits, m: nat)
    requires |s| >= 5 && m >= 1 && |s| >= 5 * m
    ensures (forall j :: 1 <= j <= m ==> FlagAt(s, j)) <==> s[4] && forall j :: 1 <= j <= m - 1 ==> FlagAt(s[5..], j)
  {
    if s[4] && forall j :: 1 <= j <= m - 1 ==> FlagAt(s[5..], j) {
      forall j | 1 <= j <= m ensures FlagAt(s, j) {
        if j > 1 {
          assert FlagAt(s[5..], j - 1);
        }
      }
    }
    if forall j :: 1 <= j <= m ==> FlagAt(s, j) {
      assert FlagAt(s, 1);
      forall j | 1 <= j <= m - 1 ensures FlagAt(s[5..], j) {
        assert FlagAt(s, j + 1);
      }
    }
  }

  /** The bits at which the fdiffs of the t-th of the next templates begin, if the decoder gets there. */
  function FdiffsStart(s: Bits, t: nat): (r: Option<Bits>)
    decreases t
  {
    if t == 0 then Some(s)
    else if |s| < 1 then None
    else match GetFdiffs(Get(s, 1).rest, Get(s, 1).v == 1)
      case Err(_) => None
      case Ok(p) => FdiffsStart(p.rest, t - 1)
  }

  /** Template t announces and brings seventeen fdiffs. */
  ghost predicate OverrunAt(s: Bits, t: nat) {
    var r := FdiffsStart(s, t);
    r.Some? && |r.value| >= 1 && TooMany(r.value[1..], r.value[0], 0)
  }

  lemma {:induction false} AllFdiffsInIff(s: Bits, t: nat, rows: nat)
    requires t + rows <= MAX_TEMPLATES
    ensures AllFdiffsIn(s, t, rows) <==> forall j :: 0 <= j < rows ==> !OverrunAt(s, j)
    decreases rows
  {
    hide Get, TooMany, FdiffsIn, GetFdiffs;
    if rows > 0 {
      if |s| >= 1 {
        FirstFlag(s);
        FdiffsInIff(s[1..], s[0], 0);
        assert OverrunAt(s, 0) <==> TooMany(s[1..], s[0], 0);
        var r := GetFdiffs(s[1..], s[0]);
        if r.Ok? {
          AllFdiffsInIff(r.value.rest, t + 1, rows - 1);
          forall j | 1 <= j < rows ensures OverrunAt(s, j) <==> OverrunAt(r.value.rest, j - 1) {
            assert FdiffsStart(s, j) == FdiffsStart(r.value.rest, j - 1);
          }
          if forall j :: 0 <= j < rows ==> !OverrunAt(s, j) {
            forall j | 0 <= j < rows - 1 ensures !OverrunAt(r.value.rest, j) {
              assert !OverrunAt(s, j + 1);
            }
          }
        } else {
          forall j | 1 <= j < rows ensures !OverrunAt(s, j) {
            assert FdiffsStart(s, j) == None;
          }
        }
      } else {
        forall j | 0 <= j < rows ensures !OverrunAt(s, j) {
          assert j > 0 ==> FdiffsStart(s, j) == None;
        }
      }
    }
  }

  lemma FirstFlag(s: Bits)
    requires |s| >= 1
    ensures Get(s, 1).rest == s[1..] && (Get(s, 1).v == 1 <==> s[0])
  {
    GetFlag(s[0], s[1..]);
    assert s == [s[0]] + s[1..];
  }

  /** ns(n) never gives n or more, whatever the bits. */
  lemma NsBound(s: Bits, n: nat)
    requires n >= 1
    ensures GetNs(s, n).v < n
  {
    WidthBounds(n);
    var w := Width(n);
    GetBound(s, w - 1);
    GetBound(Get(s, w - 1).rest, 1);
    assert Pow2(1) == 2;
    assert Pow2(w) == 2 * Pow2(w - 1);
  }

  lemma GetBound(s: Bits, n: nat)
    ensures Get(s, n).v < Pow2(n)
  {
    if |s| >= n {
      FromBitsBound(s[..n]);
    }
  }

  /** With no more targets than the array has, the chains stay inside. */
  lemma ChainsInside(s: Bits, dtCnt: nat, rows: nat)
    requires dtCnt <= MAX_TARGETS && rows <= MAX_TEMPLATES
    ensures ChainsIn(s, dtCnt, rows)
  {
    hide GetNs, GetNsRow, RowsIn;
    var c := GetNs(s, dtCnt + 1);
    NsBound(s, dtCnt + 1);
    if c.v > 0 {
      RowsInIff(GetNsRow(c.rest, c.v, dtCnt).rest, 4, c.v, MAX_CHAINS, 0, rows, (MAX_CHAINS + 1) * 4);
    }
  }

  lemma {:induction false} RendersInIff(s: Bits, k: nat, i: nat)
    requires i <= MAX_SPATIAL
    ensures RendersIn(s, k, i) <==> k <= MAX_SPATIAL - i || |s| < 32 * (MAX_SPATIAL - i + 1)
    decreases k
  {
    hide Get;
    if k > 0 && |s| >= 32 && i < MAX_SPATIAL {
      GetRest(s, 16);
      GetRest(s[16..], 16);
      assert s[16..][16..] == s[32..];
      RendersInIff(s[32..], k - 1, i + 1);
    }
  }

  lemma {:induction false} LayersCount(s: Bits, l: Layer, cnt: nat)
    ensures GetLayers(s, l, cnt).Ok? ==> cnt + |GetLayers(s, l, cnt).value.v| <= 8
    decreases |s|
  {
    hide Get;
    if cnt < MAX_TEMPLATES && |s| >= 2 {
      GetRest(s, 2);
      var g := Get(s, 2);
      if g.v != NO_MORE_TEMPLATES {
        LayersCount(g.rest, ApplyIdc(l, g.v), cnt + 1);
      }
    }
  }

  /**
   What a sender must not put into the tables: a seventeenth decode target indication, a
   seventeenth fdiff in a template, a fifth resolution.
   */
  ghost predicate TablesContained(s: Bits, dtCnt: nat, layers: seq<Layer>)
    requires layers != []
  {
    (dtCnt <= 16 || |s| < 34) &&
    match GetRows(s, 2, dtCnt, |layers|)
    case Err(_) => true
    case Ok(dtis) =>
      (forall t :: 0 <= t < |layers| ==> !OverrunAt(dtis.rest, t)) &&
      match GetAllFdiffs(dtis.rest, |layers|)
      case Err(_) => true
      case Ok(fdiffs) =>
        var rest := GetChains(fdiffs.rest, dtCnt, |layers|).rest;
        |rest| >= 1 && rest[0] ==> MaxSpatial(layers) < 4 || |rest| < 161
  }

  lemma RowsNeed(s: Bits, dtCnt: nat, rows: nat)
    requires rows >= 1 && |s| < 34 && dtCnt > MAX_TARGETS
    ensures GetRows(s, 2, dtCnt, rows).Err?
  {
    hide GetRow;
    RowNeeds(s, 2, dtCnt, dtCnt * 2);
  }

  lemma TablesInIff(s: Bits, dtCnt: nat, layers: seq<Layer>)
    requires 1 <= |layers| <= MAX_TEMPLATES
    ensures TablesIn(s, dtCnt, layers) <==> TablesContained(s, dtCnt, layers)
  {
    hide Get, GetRows, GetAllFdiffs, GetChains, RowsIn, AllFdiffsIn, ChainsIn, RendersIn, OverrunAt;
    RowsInIff(s, 2, dtCnt, MAX_TARGETS, 0, |layers|, 34);
    if dtCnt > MAX_TARGETS && |s| < 34 {
      RowsNeed(s, dtCnt, |layers|);
    }
    var dtis := GetRows(s, 2, dtCnt, |layers|);
    if dtCnt <= MAX_TARGETS && dtis.Ok? {
      AllFdiffsInIff(dtis.value.rest, 0, |layers|);
      var fdiffs := GetAllFdiffs(dtis.value.rest, |layers|);
      if fdiffs.Ok? {
        ChainsInside(fdiffs.value.rest, dtCnt, |layers|);
        var rest := GetChains(fdiffs.value.rest, dtCnt, |layers|).rest;
        if |rest| >= 1 {
          FirstFlag(rest);
          RendersInIff(rest[1..], MaxSpatial(layers) + 1, 0);
        }
      }
    }
  }

  /** The extended fields are short, have no structure, or have one that fits. */
  ghost predicate Contained(s: Bits) {
    |s| < 16 || !s[0] ||
    match GetLayers(s[16..], Layer(0, 0), 0)
    case Err(_) => true
    case Ok(layers) => TablesContained(layers.rest, FromBits(s[11..16]) + 1, layers.v)
  }

  lemma StructureBits(s: Bits)
    requires |s| >= 16
    ensures var dt := Get(Get(s[5..], 6).rest, 5); dt.v == FromBits(s[11..16]) && dt.rest == s[16..]
  {
    assert s[5..][6..] == s[11..];
    assert s[11..][..5] == s[11..16] && s[11..][5..] == s[16..];
  }

  /**
   Exactly these byte strings keep every write of the decoder inside its array. (The shift by the
   number of targets is defined whenever the tables are.)
   */
  lemma InsideIff(bytes: seq<Byte>)
    ensures DecodeIn(bytes) <==> Contained(ExtBits(bytes))
  {
    hide Get, GetLayers, TablesIn, TablesContained, BytesBits, GetTables, FromBits;
    var s := ExtBits(bytes);
    if |s| >= 16 && s[0] {
      StructureBits(s);
      LayersCount(s[16..], Layer(0, 0), 0);
      var layers := GetLayers(s[16..], Layer(0, 0), 0);
      if layers.Ok? {
        var dtCnt := FromBits(s[11..16]) + 1;
        TablesInIff(layers.value.rest, dtCnt, layers.value.v);
        FewTargets(layers.value.rest, Get(s[5..], 6).v, dtCnt, layers.value.v);
      }
    }
  }

  lemma FewTargets(s: Bits, offset: nat, dtCnt: nat, layers: seq<Layer>)
    requires 1 <= |layers|
    ensures GetTables(s, offset, dtCnt, layers).Ok? ==>
              && GetTables(s, offset, dtCnt, layers).value.v.dtCnt == dtCnt
              && (TablesContained(s, dtCnt, layers) ==> dtCnt <= MAX_TARGETS)
  {
    hide Get, GetRows, GetAllFdiffs, GetChains, GetRenders, OverrunAt;
    if dtCnt > MAX_TARGETS && |s| < 34 {
      RowsNeed(s, dtCnt, |layers|);
    }
  }

  // ---------------------------------------------------------------- descriptors that fit

  lemma {:induction false} FdiffsFit(s: Bits, follows: bool, i: nat)
    requires i <= MAX_FDIFFS && GetFdiffs(s, follows).Ok?
    ensures FdiffsIn(s, follows, i) <==> i + |GetFdiffs(s, follows).value.v| <= MAX_FDIFFS
    decreases |s|
  {
    hide Get;
    if follows && i < MAX_FDIFFS {
      NextFlag(s);
      FdiffsFit(s[5..], s[4], i + 1);
    }
  }

  lemma {:induction false} AllFdiffsFit(s: Bits, t: nat, rows: nat)
    requires t + rows <= MAX_TEMPLATES && GetAllFdiffs(s, rows).Ok?
    ensures |GetAllFdiffs(s, rows).value.v| == rows
    ensures AllFdiffsIn(s, t, rows) <==>
            forall j :: 0 <= j < rows ==> |GetAllFdiffs(s, rows).value.v[j]| <= MAX_FDIFFS
    decreases rows
  {
    hide Get, GetFdiffs, FdiffsIn;
    if rows > 0 {
      FirstFlag(s);
      var p := GetFdiffs(s[1..], s[0]).value;
      FdiffsFit(s[1..], s[0], 0);
      AllFdiffsFit(p.rest, t + 1, rows - 1);
      var tail, all := GetAllFdiffs(p.rest, rows - 1).value.v, GetAllFdiffs(s, rows).value.v;
      assert all == [p.v] + tail;
      if forall j :: 0 <= j < rows ==> |all[j]| <= MAX_FDIFFS {
        assert |all[0]| <= MAX_FDIFFS;
        forall j | 0 <= j < rows - 1 ensures |tail[j]| <= MAX_FDIFFS {
          assert tail[j] == all[j + 1];
        }
      }
    }
  }

  lemma {:induction false} RendersNeed(s: Bits, k: nat)
    requires GetRenders(s, k).Ok?
    ensures |GetRenders(s, k).value.v| == k && |s| >= 32 * k
    decreases k
  {
    hide Get;
    if k > 0 {
      GetRest(s, 16);
      GetRest(s[16..], 16);
      RendersNeed(Get(Get(s, 16).rest, 16).rest, k - 1);
    }
  }

  lemma RowsLength(s: Bits, dtCnt: nat, rows: nat)
    requires rows >= 1 && GetRows(s, 2, dtCnt, rows).Ok?
    ensures |s| >= 2 * dtCnt
  {
    hide GetRow;
    RowNeeds(s, 2, dtCnt, dtCnt * 2);
  }

  lemma TablesFit(s: Bits, offset: nat, dtCnt: nat, layers: seq<Layer>)
    requires 1 <= |layers| <= MAX_TEMPLATES && GetTables(s, offset, dtCnt, layers).Ok?
    ensures TablesIn(s, dtCnt, layers) <==> FitsArrays(GetTables(s, offset, dtCnt, layers).value.v)
    ensures GetTables(s, offset, dtCnt, layers).value.v.dtCnt == dtCnt
  {
    hide Get, GetRows, GetAllFdiffs, GetChains, GetRenders, RowsIn, AllFdiffsIn, ChainsIn, RendersIn;
    var dtis := GetRows(s, 2, dtCnt, |layers|).value;
    RowsLength(s, dtCnt, |layers|);
    RowsInIff(s, 2, dtCnt, MAX_TARGETS, 0, |layers|, 34);
    AllFdiffsFit(dtis.rest, 0, |layers|);
    if dtCnt <= MAX_TARGETS {
      var fdiffs := GetAllFdiffs(dtis.rest, |layers|).value;
      ChainsInside(fdiffs.rest, dtCnt, |layers|);
      var rest := GetChains(fdiffs.rest, dtCnt, |layers|).rest;
      FirstFlag(rest);
      if rest[0] {
        RendersNeed(rest[1..], MaxSpatial(layers) + 1);
        RendersInIff(rest[1..], MaxSpatial(layers) + 1, 0);
      }
    }
  }

  /** The structure that was sent, if any, is no larger than the arrays. */
  ghost predicate Fits(d: Dd) {
    d.ext.Some? && d.ext.value.structure.Some? ==> FitsArrays(d.ext.value.structure.value)
  }

  lemma ExtFits(s: Bits)
    requires GetExt(s).Ok?
    ensures ExtIn(s) <==> GetExt(s).value.structure.None? || FitsArrays(GetExt(s).value.structure.value)
  {
    hide Get, GetLayers, GetTables, TablesIn, FitsArrays, Pow2;
    if s[0] {
      var dt := Get(Get(s[5..], 6).rest, 5);
      LayersCount(dt.rest, Layer(0, 0), 0);
      var layers := GetLayers(dt.rest, Layer(0, 0), 0).value;
      TablesFit(layers.rest, Get(s[5..], 6).v, dt.v + 1, layers.v);
      FitsFew(GetStructure(s[5..]).value.v);
    }
  }

  lemma FitsFew(d: Structure)
    ensures FitsArrays(d) ==> d.dtCnt < 32
  {
  }

  lemma DecodeExt(bytes: seq<Byte>)
    requires |bytes| > 3
    ensures Decode(bytes).Ok? <==> GetExt(ExtBits(bytes)).Ok?
    ensures Decode(bytes).Ok? ==> Decode(bytes).value.ext == Some(GetExt(ExtBits(bytes)).value)
  {
    hide Get, GetExt, BytesBits;
    var s := BytesBits(bytes);
    GetRest(s[2..], 6);
    GetRest(s[2..][6..], 16);
    assert s[2..][6..][16..] == s[24..];
  }

  /** A byte string that decodes is decoded inside the arrays exactly when its descriptor fits them. */
  lemma InsideWhenDecoded(bytes: seq<Byte>)
    requires Decode(bytes).Ok?
    ensures DecodeIn(bytes) <==> Fits(Decode(bytes).value)
  {
    hide Get, GetExt, ExtIn, FitsArrays, BytesBits;
    if |bytes| > 3 {
      DecodeExt(bytes);
      ExtFits(ExtBits(bytes));
    } else {
      assert ExtIn([]) by { NoExt(); }
    }
  }

  lemma NoExt()
    ensures ExtIn([])
  {
  }

  /** So what dd_encode writes for a legal descriptor is decoded inside them. */
  lemma LegalInside(d: Dd, bytes: seq<Byte>)
    requires Legal(d) && Encode(d).Ok?
    requires Encode(d).value <= BytesBits(bytes) && |bytes| == (|Encode(d).value| + 7) / 8
    ensures Decode(bytes) == Ok(d) && DecodeIn(bytes)
  {
    hide Encode, Decode, BytesBits, DecodeIn, Pow2;
    RoundTrip(d, bytes);
    InsideWhenDecoded(bytes);
  }

  // ---------------------------------------------------------------- a byte string that does not fit

  /** Seventeen decode targets, one template, and bits for all its indications. */
  const OVERRUN: seq<Byte> := [0, 0, 0, 0x80, 0x10, 0xc0, 0, 0, 0, 0]

  lemma OverrunBits()
    ensures var s := ExtBits(OVERRUN);
            |s| == 56 && s[0] && s[11..16] == [true, false, false, false, false] && s[16] && s[17]
  {
    hide BytesBits, ByteBits;
    var s := ExtBits(OVERRUN);
    assert Pow2(0) == 1 && Pow2(1) == 2 && Pow2(2) == 4 && Pow2(3) == 8 && Pow2(4) == 16;
    assert Pow2(6) == 64 && Pow2(7) == 128;
    OverrunBit(24, 1);
    OverrunBit(35, 1);
    OverrunBit(36, 0);
    OverrunBit(37, 0);
    OverrunBit(38, 0);
    OverrunBit(39, 0);
    OverrunBit(40, 1);
    OverrunBit(41, 1);
    assert s[11] == BytesBits(OVERRUN)[35] && s[16] == BytesBits(OVERRUN)[40];
  }

  lemma OverrunBit(k: nat, b: nat)
    requires k < 80 && b == OVERRUN[k / 8] / Pow2(7 - k % 8) % 2
    ensures |BytesBits(OVERRUN)| == 80 && BytesBits(OVERRUN)[k] == (b == 1)
  {
    hide BytesBits;
    BytesBitsAt(OVERRUN, k);
    BitAt(8, OVERRUN[k / 8], k % 8);
  }

  /** The decoder writes outside template_dti on it. */
  lemma OverrunWitness()
    ensures !DecodeIn(OVERRUN)
  {
    hide BytesBits, ExtBits, DecodeIn, TablesContained, FromBits, GetLayers;
    var s := ExtBits(OVERRUN);
    OverrunBits();
    InsideIff(OVERRUN);
    Sixteen();
    OneTemplate(s[16..]);
    assert s[16..][2..] == s[18..];
    ManyTargets(s[18..], 17, [Layer(0, 0)]);
  }

  lemma OneTemplate(s: Bits)
    requires |s| >= 2 && s[0] && s[1]
    ensures GetLayers(s, Layer(0, 0), 0) == Ok(Parsed([Layer(0, 0)], s[2..]))
  {
    assert s[..2] == [true, true];
    Three();
  }

  lemma ManyTargets(s: Bits, dtCnt: nat, layers: seq<Layer>)
    requires layers != [] && dtCnt > MAX_TARGETS && |s| >= 34
    ensures !TablesContained(s, dtCnt, layers)
  {
  }

  lemma Sixteen()
    ensures FromBits([true, false, false, false, false]) == 16
  {
    var a := [true, false, false, false, false];
    assert a[..4][..3] == a[..3] && a[..3][..2] == a[..2] && a[..2][..1] == a[..1] && a[..1][..0] == [];
    assert FromBits(a[..0]) == 0 && FromBits(a[..1]) == 1 && FromBits(a[..2]) == 2 && FromBits(a[..3]) == 4;
    assert FromBits(a[..4]) == 8;
  }

  lemma Three()
    ensures FromBits([true, true]) == 3
  {
    assert [true, true][..1] == [true] && [true][..0] == [];
    assert FromBits([]) == 0 && FromBits([true]) == 1;
  }
}
