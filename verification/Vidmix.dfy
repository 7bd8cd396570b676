/** The tile layout of the video mixer (vidmix.c): who is shown, and where. */
module Vidmix {
  import opened Arith
  import opened Bytes

  datatype Rect = Rect(x: nat, y: nat, w: nat, h: nat)

  /** A source in the mixer's list. */
  datatype Source = Source(id: nat, content: bool)

  /** What the mixed source asks for: the settings of the viewer. */
  datatype View = View(self: nat, selfview: bool, hideContent: bool, focus: Option<nat>, full: bool)

  predicate Visible(v: View, s: Source) {
    !(s.id == v.self && !v.selfview) && !(s.content && v.hideContent)
  }

  predicate Focused(v: View, s: Source) {
    v.focus == Some(s.id)
  }

  /** How many of the first i sources are visible. */
  function Count(v: View, srcs: seq<Source>, i: nat): (n: nat)
    requires i <= |srcs|
    ensures n <= i
  {
    if i == 0 then 0 else Count(v, srcs, i - 1) + (if Visible(v, srcs[i - 1]) then 1 else 0)
  }

  /** How many of the first i sources are visible and not focused: the index of a tile. */
  function Index(v: View, srcs: seq<Source>, i: nat): (n: nat)
    requires i <= |srcs|
    ensures n <= i
  {
    if i == 0 then 0
    else Index(v, srcs, i - 1) + (if Visible(v, srcs[i - 1]) && !Focused(v, srcs[i - 1]) then 1 else 0)
  }

  // ---------------------------------------------------------------- places

  function RowsFrom(n: nat, r: nat): (rows: nat)
    requires r > 0 && (r == 1 || n > (r - 1) * (r - 1))
    ensures rows >= r && n <= rows * rows && (rows == 1 || n > (rows - 1) * (rows - 1))
    decreases n - r
  {
    if n <= r * r then r
    else
      assert r * r >= r;
      RowsFrom(n, r + 1)
  }

  /** The side of the smallest square of tiles that holds n. */
  function Rows(n: nat): (rows: nat)
    ensures rows > 0 && n <= rows * rows && (rows == 1 || n > (rows - 1) * (rows - 1))
  {
    RowsFrom(n, 1)
  }

  /** The number of tiles along a side around the focused source. */
  function Side(n: nat, full: bool): (k: nat)
    ensures k >= 3
  {
    var least := if full then 12 else 6;
    (if n + 1 >= least then n + 1 else least) / 2
  }

  // unsigned arithmetic, kept apart from the layout

  function Part(w: nat, k: nat): (t: nat)
    requires k > 0
    ensures t <= w && t * k <= w
  {
    Fits(w, k);
    w / k
  }

  function Times(t: nat, a: nat): (p: nat) {
    t * a
  }

  /** The width left of the k-th part. */
  function Most(w: nat, k: nat): (t: nat)
    requires k > 0
    ensures t <= w - Part(w, k)
  {
    Remainder(w, k);
    w * (k - 1) / k
  }

  function Row(idx: nat, rows: nat): (r: nat)
    requires rows > 0
  {
    idx / rows
  }

  function Col(idx: nat, rows: nat): (c: nat)
    requires rows > 0
    ensures c < rows
  {
    idx % rows
  }

  /** The rectangle computed by source_mix; None when the source gets no tile. */
  function Place(w: nat, h: nat, n: nat, idx: nat, focus: bool, mine: bool, full: bool): (r: Option<Rect>)
    requires n > 0
  {
    if focus then
      var k := Side(n, full);
      if mine then Some(Rect(0, 0, Most(w, k), Most(h, k)))
      else Around(w, h, k, idx)
    else if Rows(n) == 1 then Some(Rect(0, 0, w, h))
    else if n <= 3 then Some(Rect(Times(Part(w, n), Col(idx, n)), 0, Part(w, n), h))
    else Some(Grid(w, h, Rows(n), idx))
  }

  function Grid(w: nat, h: nat, rows: nat, idx: nat): (r: Rect)
    requires rows > 0
  {
    Rect(Times(Part(w, rows), Col(idx, rows)), Times(Part(h, rows), Row(idx, rows)), Part(w, rows), Part(h, rows))
  }

  /** Down the right side, then leftwards along the bottom. */
  function Around(w: nat, h: nat, k: nat, idx: nat): (r: Option<Rect>)
    requires k > 0
  {
    var tw, th := Part(w, k), Part(h, k);
    if idx < k then Some(Rect(w - tw, Times(th, idx), tw, th))
    else if idx < 2 * k - 1 then Some(Rect(Times(tw, 2 * k - 2 - idx), h - th, tw, th))
    else None
  }

  /** The tile of source i, if it is shown and gets one. */
  function Tile(w: nat, h: nat, v: View, srcs: seq<Source>, i: nat): (r: Option<Rect>)
    requires i < |srcs|
  {
    var n := Count(v, srcs, |srcs|);
    if !Visible(v, srcs[i]) || (Focused(v, srcs[i]) && v.full) || n == 0 then None
    else Place(w, h, n, Index(v, srcs, i), v.focus.Some?, Focused(v, srcs[i]), v.full)
  }

  // ---------------------------------------------------------------- geometry

  ghost predicate Inside(w: nat, h: nat, r: Rect) {
    r.x + r.w <= w && r.y + r.h <= h
  }

  ghost predicate Disjoint(a: Rect, b: Rect) {
    a.x + a.w <= b.x || b.x + b.w <= a.x || a.y + a.h <= b.y || b.y + b.h <= a.y
  }

  /** Disjoint rectangles share no pixel, which is what disjointness is for. */
  ghost predicate Covers(r: Rect, x: nat, y: nat) {
    r.x <= x < r.x + r.w && r.y <= y < r.y + r.h
  }

  lemma NoSharedPixel(a: Rect, b: Rect)
    requires a.w > 0 && a.h > 0 && b.w > 0 && b.h > 0
    ensures Disjoint(a, b) <==> forall x: nat, y: nat :: !(Covers(a, x, y) && Covers(b, x, y))
  {
    if !Disjoint(a, b) {
      var x := if a.x >= b.x then a.x else b.x;
      var y := if a.y >= b.y then a.y else b.y;
      assert Covers(a, x, y) && Covers(b, x, y);
    }
  }

  lemma Strip(t: nat, a: nat, b: nat)
    requires a < b
    ensures Times(t, a) + t <= Times(t, b)
  {
    Scale(t, a + 1, b);
    Distribute(a + 1, a, t);
    Commute(a, t);
    Commute(a + 1, t);
  }

  lemma Fits(w: nat, k: nat)
    requires k > 0
    ensures w / k * k <= w && 0 <= w / k <= w
  {
    Scale(w, 1, k);
    FloorAtMost(w, k, w);
  }

  lemma Column(w: nat, k: nat, a: nat)
    requires a < k
    ensures Times(Part(w, k), a) + Part(w, k) <= w
  {
    Strip(Part(w, k), a, k);
  }

  /** The focused tile ends where the others begin. */
  lemma Remainder(w: nat, k: nat)
    requires k > 0
    ensures 0 <= w * (k - 1) / k <= w - w / k <= w
  {
    var q := w / k;
    Fits(w, k);
    Distribute(k, 1, w);
    Distribute(w, q, k);
    Commute(k, w);
    Commute(k - 1, w);
    Commute(w - q, k);
    Nonneg(k - 1, w);
    FloorAtMost(w * (k - 1), k, w - q);
  }

  lemma RowBound(idx: nat, rows: nat)
    requires rows > 0 && idx < rows * rows
    ensures Row(idx, rows) < rows
  {
    if idx / rows >= rows {
      Scale(rows, rows, idx / rows);
      assert false;
    }
  }

  lemma RowAndCol(i: nat, j: nat, rows: nat)
    requires rows > 0 && Row(i, rows) == Row(j, rows) && Col(i, rows) == Col(j, rows)
    ensures i == j
  {
    assert i == rows * (i / rows) + i % rows && j == rows * (j / rows) + j % rows;
  }

  lemma GridInside(w: nat, h: nat, rows: nat, idx: nat)
    requires rows > 0 && idx < rows * rows
    ensures Inside(w, h, Grid(w, h, rows, idx))
  {
    hide Part, Times, Row, Col;
    RowBound(idx, rows);
    Column(w, rows, Col(idx, rows));
    Column(h, rows, Row(idx, rows));
  }

  lemma GridDisjoint(w: nat, h: nat, rows: nat, i: nat, j: nat)
    requires rows > 0 && i != j
    ensures Disjoint(Grid(w, h, rows, i), Grid(w, h, rows, j))
  {
    hide Part, Times, Row, Col;
    if Row(i, rows) != Row(j, rows) {
      Apart(Part(h, rows), Row(i, rows), Row(j, rows));
    } else {
      if Col(i, rows) == Col(j, rows) {
        RowAndCol(i, j, rows);
      }
      Apart(Part(w, rows), Col(i, rows), Col(j, rows));
    }
  }

  lemma Apart(t: nat, a: nat, b: nat)
    requires a != b
    ensures Times(t, a) + t <= Times(t, b) || Times(t, b) + t <= Times(t, a)
  {
    if a < b {
      Strip(t, a, b);
    } else {
      Strip(t, b, a);
    }
  }

  lemma AroundInside(w: nat, h: nat, k: nat, idx: nat)
    requires k > 0 && idx < 2 * k - 1
    ensures Around(w, h, k, idx).Some? && Inside(w, h, Around(w, h, k, idx).value)
  {
    hide Part, Times;
    if idx < k {
      Column(h, k, idx);
    } else {
      Column(w, k, 2 * k - 2 - idx);
    }
  }

  lemma AroundDisjoint(w: nat, h: nat, k: nat, i: nat, j: nat)
    requires k > 0 && i < j < 2 * k - 1
    ensures Disjoint(Around(w, h, k, i).value, Around(w, h, k, j).value)
  {
    hide Part, Times;
    if j < k {
      Strip(Part(h, k), i, j);
    } else if i >= k {
      Strip(Part(w, k), 2 * k - 2 - j, 2 * k - 2 - i);
    } else {
      // the bottom row ends where the right column begins
      Strip(Part(w, k), 2 * k - 2 - j, k - 1);
      Column(w, k, k - 1);
    }
  }

  lemma AroundFocus(w: nat, h: nat, k: nat, idx: nat)
    requires k > 0 && idx < 2 * k - 1
    ensures Disjoint(Rect(0, 0, Most(w, k), Most(h, k)), Around(w, h, k, idx).value)
  {
    hide Part, Times, Most;
  }

  // ---------------------------------------------------------------- the whole picture

  ghost predicate Distinct(srcs: seq<Source>) {
    forall i, j :: 0 <= i < j < |srcs| ==> srcs[i].id != srcs[j].id
  }

  /** Tiles are numbered in the order of the list. */
  lemma {:induction false} IndexGrows(v: View, srcs: seq<Source>, i: nat, j: nat)
    requires i <= j <= |srcs|
    ensures Index(v, srcs, i) <= Index(v, srcs, j)
    ensures i < j && Visible(v, srcs[i]) && !Focused(v, srcs[i]) ==> Index(v, srcs, i) < Index(v, srcs, j)
    decreases j
  {
    if i < j {
      IndexGrows(v, srcs, i, j - 1);
    }
  }

  lemma {:induction false} CountGrows(v: View, srcs: seq<Source>, i: nat, j: nat)
    requires i <= j <= |srcs|
    ensures Count(v, srcs, i) <= Count(v, srcs, j)
    ensures i < j && Visible(v, srcs[i]) ==> Count(v, srcs, i) < Count(v, srcs, j)
    decreases j
  {
    if i < j {
      CountGrows(v, srcs, i, j - 1);
    }
  }

  ghost predicate FocusIn(v: View, srcs: seq<Source>, i: nat)
    requires i <= |srcs|
  {
    exists k :: 0 <= k < i && Visible(v, srcs[k]) && Focused(v, srcs[k])
  }

  /** The two countings differ by the focused source. */
  lemma {:induction false} CountAndIndex(v: View, srcs: seq<Source>, i: nat)
    requires Distinct(srcs) && i <= |srcs|
    ensures Count(v, srcs, i) == Index(v, srcs, i) + (if FocusIn(v, srcs, i) then 1 else 0)
  {
    if i > 0 {
      CountAndIndex(v, srcs, i - 1);
      if Visible(v, srcs[i - 1]) && Focused(v, srcs[i - 1]) {
        assert FocusIn(v, srcs, i);
        assert !FocusIn(v, srcs, i - 1);
      } else {
        assert FocusIn(v, srcs, i) <==> FocusIn(v, srcs, i - 1);
      }
    }
  }

  /** The index of an unfocused visible source is below the number of visible ones. */
  lemma IndexBound(v: View, srcs: seq<Source>, i: nat)
    requires Distinct(srcs) && i < |srcs| && Visible(v, srcs[i])
    ensures Count(v, srcs, |srcs|) > 0
    ensures !Focused(v, srcs[i]) ==>
              Index(v, srcs, i) < Count(v, srcs, |srcs|) - (if FocusIn(v, srcs, |srcs|) then 1 else 0)
  {
    CountGrows(v, srcs, i, |srcs|);
    IndexGrows(v, srcs, i, |srcs|);
    CountAndIndex(v, srcs, |srcs|);
  }

  lemma PlaceInside(w: nat, h: nat, n: nat, idx: nat, focus: bool, mine: bool, full: bool)
    requires n > 0 && (!focus ==> idx < n) && Place(w, h, n, idx, focus, mine, full).Some?
    ensures Inside(w, h, Place(w, h, n, idx, focus, mine, full).value)
  {
    hide Rows, Side, Grid, Around, Part, Times, Most, Col;
    if focus {
      var k := Side(n, full);
      if !mine {
        AroundSome(w, h, k, idx);
        AroundInside(w, h, k, idx);
      }
    } else if n <= 3 {
      Column(w, n, Col(idx, n));
    } else {
      GridInside(w, h, Rows(n), idx);
    }
  }

  lemma AroundSome(w: nat, h: nat, k: nat, idx: nat)
    requires k > 0
    ensures Around(w, h, k, idx).Some? <==> idx < 2 * k - 1
  {
  }

  /** Every tile lies inside the frame. */
  lemma TilesInside(w: nat, h: nat, v: View, srcs: seq<Source>, i: nat)
    requires Distinct(srcs) && i < |srcs| && Tile(w, h, v, srcs, i).Some?
    ensures Inside(w, h, Tile(w, h, v, srcs, i).value)
  {
    hide Place, Count, Index;
    IndexBound(v, srcs, i);
    PlaceInside(w, h, Count(v, srcs, |srcs|), Index(v, srcs, i), v.focus.Some?, Focused(v, srcs[i]), v.full);
  }

  lemma PlaceDisjoint(w: nat, h: nat, n: nat, i: nat, j: nat, focus: bool, full: bool)
    requires n > 0 && i < j && (!focus ==> j < n)
    requires Place(w, h, n, i, focus, false, full).Some? && Place(w, h, n, j, focus, false, full).Some?
    ensures Disjoint(Place(w, h, n, i, focus, false, full).value, Place(w, h, n, j, focus, false, full).value)
  {
    hide Rows, Side, Grid, Around, Part, Times, Most, Col;
    if focus {
      AroundSome(w, h, Side(n, full), j);
      AroundDisjoint(w, h, Side(n, full), i, j);
    } else if Rows(n) == 1 {
      assert false;
    } else if n <= 3 {
      SmallMod(i, n);
      SmallMod(j, n);
      Strip(Part(w, n), i, j);
    } else {
      GridDisjoint(w, h, Rows(n), i, j);
    }
  }

  lemma SmallMod(i: nat, n: nat)
    requires i < n
    ensures Col(i, n) == i
  {
  }

  lemma PlaceFocus(w: nat, h: nat, n: nat, i: nat, j: nat, full: bool)
    requires n > 0 && Place(w, h, n, i, true, false, full).Some?
    ensures Disjoint(Place(w, h, n, j, true, true, full).value, Place(w, h, n, i, true, false, full).value)
    ensures Disjoint(Place(w, h, n, i, true, false, full).value, Place(w, h, n, j, true, true, full).value)
  {
    hide Around, Side, Most, Part;
    AroundSome(w, h, Side(n, full), i);
    AroundFocus(w, h, Side(n, full), i);
  }

  /** Tiles of different sources do not overlap. */
  lemma TilesDisjoint(w: nat, h: nat, v: View, srcs: seq<Source>, i: nat, j: nat)
    requires Distinct(srcs) && i < j < |srcs|
    requires Tile(w, h, v, srcs, i).Some? && Tile(w, h, v, srcs, j).Some?
    ensures Disjoint(Tile(w, h, v, srcs, i).value, Tile(w, h, v, srcs, j).value)
  {
    hide Place, Count, Index;
    var n := Count(v, srcs, |srcs|);
    var a, b := Index(v, srcs, i), Index(v, srcs, j);
    if Focused(v, srcs[i]) {
      assert !Focused(v, srcs[j]);
      PlaceFocus(w, h, n, b, a, v.full);
    } else if Focused(v, srcs[j]) {
      PlaceFocus(w, h, n, a, b, v.full);
    } else {
      IndexGrows(v, srcs, i, j);
      IndexBound(v, srcs, j);
      PlaceDisjoint(w, h, n, a, b, v.focus.Some?, v.full);
    }
  }

  /** Every visible source other than the focused one has a tile. */
  ghost predicate AllShown(w: nat, h: nat, v: View, srcs: seq<Source>) {
    forall i :: 0 <= i < |srcs| && Visible(v, srcs[i]) && !Focused(v, srcs[i]) ==> Tile(w, h, v, srcs, i).Some?
  }

  lemma PlaceSome(w: nat, h: nat, n: nat, idx: nat, focus: bool, full: bool)
    requires n > 0
    ensures Place(w, h, n, idx, focus, false, full).Some? <==> (focus ==> idx < 2 * Side(n, full) - 1)
  {
    hide Side, Around, Rows, Part, Times, Most, Col, Grid;
    if focus {
      AroundSome(w, h, Side(n, full), idx);
    }
  }

  lemma TileSome(w: nat, h: nat, v: View, srcs: seq<Source>, i: nat)
    requires Distinct(srcs) && i < |srcs| && Visible(v, srcs[i]) && !Focused(v, srcs[i])
    ensures Count(v, srcs, |srcs|) > 0
    ensures Tile(w, h, v, srcs, i).Some? <==>
            (v.focus.Some? ==> Index(v, srcs, i) < 2 * Side(Count(v, srcs, |srcs|), v.full) - 1)
  {
    hide Place, Count, Index, Side;
    IndexBound(v, srcs, i);
    PlaceSome(w, h, Count(v, srcs, |srcs|), Index(v, srcs, i), v.focus.Some?, v.full);
  }

  /**
   When there is no focus, or the focused source is visible, every other source is shown. With a
   focused source that is not visible, the last one is left out exactly when there are more tiles
   than the least layout has and their number is even.
   */
  lemma WhoIsShown(w: nat, h: nat, v: View, srcs: seq<Source>)
    requires Distinct(srcs)
    ensures var n := Count(v, srcs, |srcs|);
            AllShown(w, h, v, srcs) <==>
            v.focus.None? || FocusIn(v, srcs, |srcs|) || n % 2 == 1 || n < (if v.full then 12 else 6)
  {
    hide Tile, Count, Index;
    var n := Count(v, srcs, |srcs|);
    var shown := v.focus.None? || FocusIn(v, srcs, |srcs|) || n % 2 == 1 || n < (if v.full then 12 else 6);
    if shown {
      forall i | 0 <= i < |srcs| && Visible(v, srcs[i]) && !Focused(v, srcs[i])
        ensures Tile(w, h, v, srcs, i).Some?
      {
        IndexBound(v, srcs, i);
        TileSome(w, h, v, srcs, i);
      }
    } else {
      CountAndIndex(v, srcs, |srcs|);
      var i := LastIndexed(v, srcs, |srcs|);
      TileSome(w, h, v, srcs, i);
    }
  }

  /** Six sources and a focused one that the viewer hides: the sixth gets no tile. */
  lemma HiddenFocusWitness(w: nat, h: nat)
    ensures var v := View(0, false, true, Some(7), false);
            var srcs := [Source(1, false), Source(2, false), Source(3, false), Source(4, false), Source(5, false),
                         Source(6, false), Source(7, true)];
            && Visible(v, srcs[5]) && Tile(w, h, v, srcs, 5) == None && !AllShown(w, h, v, srcs)
  {
    hide Place;
    var v := View(0, false, true, Some(7), false);
    var srcs := [Source(1, false), Source(2, false), Source(3, false), Source(4, false), Source(5, false),
                 Source(6, false), Source(7, true)];
    assert Count(v, srcs, 2) == 2 && Index(v, srcs, 2) == 2;
    assert Count(v, srcs, 4) == 4 && Index(v, srcs, 4) == 4;
    assert Count(v, srcs, 6) == 6 && Index(v, srcs, 5) == 5;
    assert Count(v, srcs, 7) == 6;
    TileSome(w, h, v, srcs, 5);
  }

  lemma {:induction false} LastIndexed(v: View, srcs: seq<Source>, k: nat) returns (i: nat)
    requires k <= |srcs| && Index(v, srcs, k) > 0
    ensures i < k && Visible(v, srcs[i]) && !Focused(v, srcs[i]) && Index(v, srcs, i) == Index(v, srcs, k) - 1
  {
    if Visible(v, srcs[k - 1]) && !Focused(v, srcs[k - 1]) {
      i := k - 1;
    } else {
      i := LastIndexed(v, srcs, k - 1);
    }
  }

  // ---------------------------------------------------------------- sizes

  lemma PartIs(w: nat, k: nat)
    requires k > 0
    ensures Part(w, k) * k <= w < Part(w, k) * k + k
    ensures Part(w, k) > 0 <==> w >= k
  {
    var q := w / k;
    Quotient(w, k);
    Commute(q, k);
    if w >= k {
      FloorAtLeast(w, k, 1);
    }
  }

  /** The focused tile and one beside it fill the frame, up to one pixel. */
  lemma MostIs(w: nat, k: nat)
    requires k > 0
    ensures w - 1 <= Most(w, k) + Part(w, k) <= w
  {
    var q, r := w / k, w % k;
    assert w == k * q + r;
    Distribute(k, 1, w);
    Commute(k, w);
    Commute(k - 1, w);
    Distribute(w, q, k);
    Commute(w - q, k);
    Commute(q, k);
    assert w * (k - 1) == k * (w - q) - r;
    if r == 0 {
      DivUnique(w * (k - 1), k, w - q, 0);
    } else {
      Distribute(w - q, 1, k);
      Commute(w - q - 1, k);
      DivUnique(w * (k - 1), k, w - q - 1, k - r);
    }
  }

  /**
   Without focus: one source has the whole frame, two or three stand side by side at full height, more
   are laid out row by row from the top left, in the order of the list.
   */
  lemma GridTile(w: nat, h: nat, v: View, srcs: seq<Source>, i: nat)
    requires Distinct(srcs) && i < |srcs| && Visible(v, srcs[i]) && v.focus.None?
    ensures Tile(w, h, v, srcs, i).Some?
    ensures var n := Count(v, srcs, |srcs|);
            var idx := Count(v, srcs, i);
            var r := Tile(w, h, v, srcs, i).value;
            && idx < n
            && (n == 1 ==> r == Rect(0, 0, w, h))
            && (2 <= n <= 3 ==> r.w == w / n && r.h == h && r.x == r.w * idx && r.y == 0)
            && (n >= 4 ==> var rows := Rows(n);
                           r.w == w / rows && r.h == h / rows && r.x == r.w * (idx % rows) && r.y == r.h * (idx / rows))
  {
    hide Count, Index, Rows;
    IndexBound(v, srcs, i);
    CountAndIndex(v, srcs, i);
    var n := Count(v, srcs, |srcs|);
    OnlyOneRow(n);
    if 2 <= n <= 3 {
      SmallMod(Index(v, srcs, i), n);
    }
  }

  lemma OnlyOneRow(n: nat)
    requires n > 0
    ensures Rows(n) == 1 <==> n == 1
    ensures Rows(n) <= n
  {
    var rows := Rows(n);
    if rows > 1 {
      Scale(rows - 1, 1, rows - 1);
    }
  }

  /**
   With a focus: it has the top left, and the others, all of one size, go down the right side, then
   left along the bottom.
   */
  lemma FocusTile(w: nat, h: nat, v: View, srcs: seq<Source>, i: nat)
    requires Distinct(srcs) && i < |srcs| && v.focus.Some? && Tile(w, h, v, srcs, i).Some?
    ensures var most := (if v.full then 12 else 6);
            var n := Count(v, srcs, |srcs|) + 1;
            var k := (if n >= most then n else most) / 2;
            var idx := Index(v, srcs, i);
            var r := Tile(w, h, v, srcs, i).value;
            if Focused(v, srcs[i]) then
              && r.x == 0 && r.y == 0
              && w - 1 <= r.w + w / k <= w && h - 1 <= r.h + h / k <= h
            else
              && r.w == w / k && r.h == h / k
              && (idx < k ==> r.x + r.w == w && r.y == r.h * idx)
              && (idx >= k ==> r.y + r.h == h && r.x == r.w * (2 * k - 2 - idx))
  {
    hide Count, Index, Most;
    var k := Side(Count(v, srcs, |srcs|), v.full);
    MostIs(w, k);
    MostIs(h, k);
  }

  /** In a frame that is not too small every tile has pixels. */
  lemma TilesNonEmpty(w: nat, h: nat, v: View, srcs: seq<Source>, i: nat)
    requires Distinct(srcs) && i < |srcs| && Tile(w, h, v, srcs, i).Some?
    requires w >= Count(v, srcs, |srcs|) + 6 && h >= Count(v, srcs, |srcs|) + 6
    ensures Tile(w, h, v, srcs, i).value.w > 0 && Tile(w, h, v, srcs, i).value.h > 0
  {
    hide Count, Index, Part, Most, Times, Rows, Row, Col;
    var n := Count(v, srcs, |srcs|);
    var k := if v.focus.Some? then Side(n, v.full) else if n <= 3 then n else Rows(n);
    OnlyOneRow(n);
    PartIs(w, k);
    PartIs(h, k);
    MostIs(w, k);
    MostIs(h, k);
    Fewer(w, k);
    Fewer(h, k);
  }

  /** A part is less than the whole by a pixel at least, and with three parts or more by two. */
  lemma Fewer(w: nat, k: nat)
    requires k > 0 && w >= 6
    ensures k >= 3 ==> Part(w, k) + 2 <= w
  {
    if k >= 3 {
      Scale(Part(w, k), 3, k);
    }
  }

  /** Then no pixel belongs to two sources. */
  lemma TilesShareNoPixel(w: nat, h: nat, v: View, srcs: seq<Source>, i: nat, j: nat, x: nat, y: nat)
    requires Distinct(srcs) && i < |srcs| && j < |srcs| && i != j
    requires Tile(w, h, v, srcs, i).Some? && Tile(w, h, v, srcs, j).Some?
    ensures !(Covers(Tile(w, h, v, srcs, i).value, x, y) && Covers(Tile(w, h, v, srcs, j).value, x, y))
  {
    hide Tile;
    if i < j {
      TilesDisjoint(w, h, v, srcs, i, j);
    } else {
      TilesDisjoint(w, h, v, srcs, j, i);
    }
  }

  /**
   Without focus a source has a tile exactly unless it is the viewer's own and self view is off, or it
   is content and the viewer hides content. A full-screen focus has no tile beside its background.
   */
  lemma WhoIsHidden(w: nat, h: nat, v: View, srcs: seq<Source>, i: nat)
    requires Distinct(srcs) && i < |srcs|
    ensures var hidden := (srcs[i].id == v.self && !v.selfview) || (srcs[i].content && v.hideContent);
            && (hidden ==> Tile(w, h, v, srcs, i).None?)
            && (v.focus.None? ==> (Tile(w, h, v, srcs, i).None? <==> hidden))
            && (v.focus == Some(srcs[i].id) ==> (Tile(w, h, v, srcs, i).None? <==> hidden || v.full))
  {
    hide Count, Index, Rows, Part, Times, Most, Side, Grid, Around;
    if Visible(v, srcs[i]) {
      IndexBound(v, srcs, i);
    }
  }

  // ---------------------------------------------------------------- the loops

  /** calc_rows. */
  method CalcRows(n: nat) returns (rows: nat)
    ensures rows == Rows(n)
  {
    rows := 1;
    while n > rows * rows
      invariant rows > 0 && (rows == 1 || n > (rows - 1) * (rows - 1))
      invariant Rows(n) == RowsFrom(n, rows)
      decreases n - rows
    {
      assert rows * rows >= rows;
      rows := rows + 1;
    }
  }

  /** source_mix around a focused source, up to the drawing. */
  method FocusMix(w: nat, h: nat, n: nat, idx: nat, mine: bool, full: bool) returns (r: Option<Rect>)
    requires n > 0
    ensures r == Place(w, h, n, idx, true, mine, full)
    ensures r.Some? ==> Inside(w, h, r.value)
  {
    hide Part, Times, Most, Inside;
    var nmin := if full then 12 else 6;
    var k := (if n + 1 > nmin then n + 1 else nmin) / 2;
    r := None;
    if mine {
      r := Some(Rect(0, 0, Most(w, k), Most(h, k)));
    } else {
      var tw, th := Part(w, k), Part(h, k);
      if idx < k {
        r := Some(Rect(w - tw, Times(th, idx), tw, th));
      } else if idx < k * 2 - 1 {
        r := Some(Rect(Times(tw, k * 2 - 2 - idx), h - th, tw, th));
      }
    }
    if r.Some? {
      PlaceInside(w, h, n, idx, true, mine, full);
    }
  }

  /** source_mix, up to the drawing: the rectangle lies in the frame. */
  method SourceMix(w: nat, h: nat, n: nat, rows: nat, idx: nat, focus: bool, mine: bool, full: bool) returns (r: Option<Rect>)
    requires n > 0 && rows == Rows(n)
    ensures r == Place(w, h, n, idx, focus, mine, full)
    ensures r.Some? && (focus || idx < n) ==> Inside(w, h, r.value)
  {
    hide Rows, Side, Around;
    if focus {
      r := FocusMix(w, h, n, idx, mine, full);
    } else {
      if rows == 1 {
        r := Some(Rect(0, 0, w, h));
      } else if n <= 3 {
        var t := Part(w, n);
        r := Some(Rect(Times(t, Col(idx, n)), 0, t, h));
      } else {
        var tw, th := Part(w, rows), Part(h, rows);
        r := Some(Rect(Times(tw, Col(idx, rows)), Times(th, Row(idx, rows)), tw, th));
      }
      if idx < n {
        PlaceInside(w, h, n, idx, focus, mine, full);
      }
    }
  }

  /** One picture: what fills the background, if anything, and the tile of every source. */
  method Mix(w: nat, h: nat, v: View, srcs: seq<Source>) returns (backdrop: Option<nat>, tiles: seq<Option<Rect>>)
    ensures |tiles| == |srcs| && forall i :: 0 <= i < |srcs| ==> tiles[i] == Tile(w, h, v, srcs, i)
    ensures backdrop.Some? <==> v.full && FocusIn(v, srcs, |srcs|)
    ensures backdrop.Some? ==> backdrop == v.focus
  {
    hide Place;
    var n, i := 0, 0;
    backdrop := None;
    while i < |srcs|
      invariant 0 <= i <= |srcs| && n == Count(v, srcs, i)
      invariant backdrop.Some? <==> v.full && FocusIn(v, srcs, i)
      invariant backdrop.Some? ==> backdrop == v.focus
    {
      if Visible(v, srcs[i]) {
        if Focused(v, srcs[i]) && v.full {
          backdrop := Some(srcs[i].id);
        }
        n := n + 1;
      }
      i := i + 1;
    }
    var rows := CalcRows(n);
    var idx := 0;
    tiles := [];
    i := 0;
    while i < |srcs|
      invariant 0 <= i <= |srcs| && |tiles| == i && idx == Index(v, srcs, i)
      invariant forall k :: 0 <= k < i ==> tiles[k] == Tile(w, h, v, srcs, k)
    {
      var tile := None;
      if Visible(v, srcs[i]) && !(Focused(v, srcs[i]) && v.full) {
        CountGrows(v, srcs, i, |srcs|);
        tile := SourceMix(w, h, n, rows, idx, v.focus.Some?, Focused(v, srcs[i]), v.full);
      }
      if Visible(v, srcs[i]) && !Focused(v, srcs[i]) {
        idx := idx + 1;
      }
      tiles := tiles + [tile];
      i := i + 1;
    }
  }
}
