/** Splitting a frame into horizontal bands, and why the order of their composition does not matter
(src/compositor/parallel.c:40-80, 145-178).
*/
module Bands {
  import opened Options
  import opened Rects
  import opened DamageList
  import opened Pixels
  import opened Scene
  import Division

  const MAX_BANDS: nat := 16
  const MIN_ROWS: nat := 32

  // ---------------------------------------------------------------- the split

  /** One band per processor, as many as keep at least 32 rows each. */
  function BandCount(cpus: nat, rows: nat): (n: nat)
    requires rows > 0
    ensures 1 <= n <= MAX_BANDS && n <= rows
    ensures n > 1 ==> n <= cpus && n * MIN_ROWS <= rows
    ensures n == MAX_BANDS || n >= cpus || (n + 1) * MIN_ROWS > rows
  {
    var byCpu := if cpus < 1 then 1 else if cpus > MAX_BANDS then MAX_BANDS else cpus;
    var byRows := if rows / MIN_ROWS < 1 then 1 else rows / MIN_ROWS;
    if byCpu > byRows then byRows else byCpu
  }

  /** First row of band `i`, counted from the top of the box. */
  function Cut(rows: nat, n: nat, i: nat): nat
    requires n > 0
  {
    rows * i / n
  }

  function Band(box: Rect, n: nat, i: nat): Rect
    requires n > 0 && box.h >= 0
  {
    var y0 := box.y + Cut(box.h, n, i);
    var y1 := box.y + Cut(box.h, n, i + 1);
    Rect(box.x, y0, box.w, y1 - y0)
  }

  lemma QuotientStep(a: nat, b: nat, n: nat)
    requires n > 0 && a + n <= b
    ensures a / n < b / n
  {
    Division.DivisionBounds(a, n);
    Division.DivisionBounds(b, n);
    var q := a / n;
    assert (q + 1) * n == q * n + n;
    Division.FactorOrder(q + 1, b / n + 1, n);
  }

  lemma CutGrows(rows: nat, n: nat, i: nat)
    requires 0 < n <= rows
    ensures Cut(rows, n, i) < Cut(rows, n, i + 1)
  {
    var a := rows * i;
    assert rows * (i + 1) == a + rows;
    QuotientStep(a, a + rows, n);
  }

  lemma {:induction false} CutOrder(rows: nat, n: nat, i: nat, j: nat)
    requires 0 < n <= rows && i <= j
    ensures Cut(rows, n, i) <= Cut(rows, n, j)
    decreases j - i
  {
    if i < j {
      CutGrows(rows, n, i);
      CutOrder(rows, n, i + 1, j);
    }
  }

  lemma CutEnds(rows: nat, n: nat)
    requires n > 0
    ensures Cut(rows, n, 0) == 0 && Cut(rows, n, n) == rows
  {
    Division.DivisionBounds(rows * n, n);
    Division.FactorOrder(rows * n / n, rows + 1, n);
    Division.FactorOrder(rows, rows * n / n + 1, n);
  }

  /** Bands are as even as whole rows allow. */
  lemma BandsAreEven(box: Rect, n: nat, i: nat)
    requires n > 0 && box.h >= 0
    ensures box.h / n <= Band(box, n, i).h <= box.h / n + 1
  {
    var a, q := box.h * i, box.h / n;
    assert box.h * (i + 1) == a + box.h;
    Division.DivModBack(a, n);
    Division.DivModBack(box.h, n);
    var r := a % n + box.h % n;
    assert a + box.h == (a / n + q) * n + r;
    if r < n {
      Division.DivMod(a / n + q, r, n);
    } else {
      assert (a / n + q + 1) * n == (a / n + q) * n + n;
      Division.DivMod(a / n + q + 1, r - n, n);
    }
  }

  lemma {:induction false} FindBand(rows: nat, n: nat, row: nat, k: nat) returns (i: nat)
    requires 0 < n <= rows && k <= n && row < Cut(rows, n, k)
    ensures i < k && Cut(rows, n, i) <= row < Cut(rows, n, i + 1)
  {
    CutEnds(rows, n);
    if k > 0 && row >= Cut(rows, n, k - 1) {
      i := k - 1;
    } else {
      i := FindBand(rows, n, row, k - 1);
    }
  }

  /** The bands are non-empty, pairwise disjoint, and together hold exactly the pixels of the box. */
  lemma BandsPartitionBox(box: Rect, n: nat)
    requires !box.Empty() && 0 < n <= box.h
    ensures forall i :: 0 <= i < n ==> !Band(box, n, i).Empty()
    ensures forall i, j, px, py :: 0 <= i < n && 0 <= j < n && Band(box, n, i).Has(px, py) && Band(box, n, j).Has(px, py) ==> i == j
    ensures forall px, py :: box.Has(px, py) <==> exists i :: 0 <= i < n && Band(box, n, i).Has(px, py)
  {
    hide Cut;
    CutEnds(box.h, n);
    forall i | 0 <= i < n ensures !Band(box, n, i).Empty() {
      CutGrows(box.h, n, i);
    }
    forall i, j, px, py | 0 <= i < n && 0 <= j < n && Band(box, n, i).Has(px, py) && Band(box, n, j).Has(px, py)
      ensures i == j
    {
      if i < j {
        CutOrder(box.h, n, i + 1, j);
      } else if j < i {
        CutOrder(box.h, n, j + 1, i);
      }
    }
    forall px, py
      ensures box.Has(px, py) <==> exists i :: 0 <= i < n && Band(box, n, i).Has(px, py)
    {
      if box.Has(px, py) {
        var i := FindBand(box.h, n, py - box.y, n);
        assert Band(box, n, i).Has(px, py);
      }
      if i :| 0 <= i < n && Band(box, n, i).Has(px, py) {
        CutOrder(box.h, n, 0, i);
        CutOrder(box.h, n, i + 1, n);
      }
    }
  }

  // ---------------------------------------------------------------- pixel writes

  /** What one write does to its pixel. */
  datatype Act = Clear(bg: Rgb) | LayView(v: View)

  datatype Write = Write(px: int, py: int, act: Act)

  function ActOn(act: Act, px: int, py: int, c: Rgb): Rgb {
    match act
    case Clear(bg) => bg
    case LayView(v) => Lay(InkAt(v, px, py), c)
  }

  /** The value of pixel (px, py) after a sequence of writes, from value `c`. */
  function RunAt(ws: seq<Write>, px: int, py: int, c: Rgb): Rgb {
    if ws == [] then c
    else
      var last := ws[|ws| - 1];
      var before := RunAt(ws[..|ws| - 1], px, py, c);
      if last.px == px && last.py == py then ActOn(last.act, px, py, before) else before
  }

  function RowWrites(x: int, y: int, w: nat, act: Act): seq<Write> {
    if w == 0 then [] else RowWrites(x, y, w - 1, act) + [Write(x + w - 1, y, act)]
  }

  /** A fill or blit of a rectangle, pixel by pixel in row-major order. */
  function RectWrites(x: int, y: int, w: nat, h: nat, act: Act): seq<Write>
    decreases h
  {
    if h == 0 then [] else RectWrites(x, y, w, h - 1, act) + RowWrites(x, y + h - 1, w, act)
  }

  function Writes(r: Rect, act: Act): seq<Write> {
    if r.Empty() then [] else RectWrites(r.x, r.y, r.w, r.h, act)
  }

  /** One damage rectangle inside one band: clear it, then every contributing surface. */
  function SubWrites(sub: Rect, vs: seq<View>, bg: Rgb): seq<Write> {
    if vs == [] then Writes(sub, Clear(bg))
    else
      var v := vs[|vs| - 1];
      SubWrites(sub, vs[..|vs| - 1], bg)
      + (if v.geom.Contributes() then Writes(Intersect(sub, v.geom.Bounds()), LayView(v)) else [])
  }

  /** The whole of compose_band. */
  function BandWrites(dmg: seq<Rect>, vs: seq<View>, bg: Rgb, band: Rect): seq<Write> {
    if dmg == [] then []
    else
      var sub := Intersect(dmg[|dmg| - 1], band);
      BandWrites(dmg[..|dmg| - 1], vs, bg, band) + (if sub.Empty() then [] else SubWrites(sub, vs, bg))
  }

  lemma {:induction false} RunAppend(a: seq<Write>, b: seq<Write>, px: int, py: int, c: Rgb)
    ensures RunAt(a + b, px, py, c) == RunAt(b, px, py, RunAt(a, px, py, c))
  {
    if b == [] {
      assert a + b == a;
    } else {
      RunAppend(a, b[..|b| - 1], px, py, c);
      assert (a + b)[..|a + b| - 1] == a + b[..|b| - 1];
    }
  }

  lemma {:induction false} RunRow(x: int, y: int, w: nat, act: Act, px: int, py: int, c: Rgb)
    ensures RunAt(RowWrites(x, y, w, act), px, py, c) ==
            if x <= px < x + w && py == y then ActOn(act, px, py, c) else c
  {
    if w > 0 {
      RunRow(x, y, w - 1, act, px, py, c);
      var rest := RowWrites(x, y, w - 1, act);
      assert (rest + [Write(x + w - 1, y, act)])[..|rest|] == rest;
    }
  }

  lemma {:induction false} RunRect(x: int, y: int, w: nat, h: nat, act: Act, px: int, py: int, c: Rgb)
    ensures RunAt(RectWrites(x, y, w, h, act), px, py, c) ==
            if Rect(x, y, w, h).Has(px, py) then ActOn(act, px, py, c) else c
    decreases h
  {
    if h > 0 {
      RunRect(x, y, w, h - 1, act, px, py, c);
      RunRow(x, y + h - 1, w, act, px, py, RunAt(RectWrites(x, y, w, h - 1, act), px, py, c));
      RunAppend(RectWrites(x, y, w, h - 1, act), RowWrites(x, y + h - 1, w, act), px, py, c);
    }
  }

  lemma RunWrites(r: Rect, act: Act, px: int, py: int, c: Rgb)
    ensures RunAt(Writes(r, act), px, py, c) == if r.Has(px, py) then ActOn(act, px, py, c) else c
  {
    if !r.Empty() {
      RunRect(r.x, r.y, r.w, r.h, act, px, py, c);
    }
  }

  lemma {:induction false} RunSub(sub: Rect, vs: seq<View>, bg: Rgb, px: int, py: int, c: Rgb)
    ensures RunAt(SubWrites(sub, vs, bg), px, py, c) == if sub.Has(px, py) then PaintAt(vs, bg, px, py) else c
  {
    hide InkAt;
    if vs == [] {
      RunWrites(sub, Clear(bg), px, py, c);
    } else {
      var v, rest := vs[|vs| - 1], vs[..|vs| - 1];
      RunSub(sub, rest, bg, px, py, c);
      InkNeedsBounds(v, px, py);
      var more := if v.geom.Contributes() then Writes(Intersect(sub, v.geom.Bounds()), LayView(v)) else [];
      RunAppend(SubWrites(sub, rest, bg), more, px, py, c);
      RunWrites(Intersect(sub, v.geom.Bounds()), LayView(v), px, py, RunAt(SubWrites(sub, rest, bg), px, py, c));
    }
  }

  lemma InkNeedsBounds(v: View, px: int, py: int)
    ensures !(v.geom.Contributes() && v.geom.Bounds().Has(px, py)) ==> InkAt(v, px, py).None?
  {
  }

  /** A band's program sets exactly the damaged pixels of the band, each to the painted colour. */
  lemma {:induction false} RunBand(dmg: seq<Rect>, vs: seq<View>, bg: Rgb, band: Rect, px: int, py: int, c: Rgb)
    ensures RunAt(BandWrites(dmg, vs, bg, band), px, py, c) ==
            if Covered(dmg, px, py) && band.Has(px, py) then PaintAt(vs, bg, px, py) else c
  {
    hide PaintAt;
    hide SubWrites;
    if dmg != [] {
      var n := |dmg| - 1;
      var sub := Intersect(dmg[n], band);
      RunBand(dmg[..n], vs, bg, band, px, py, c);
      CoveredSnoc(dmg, px, py);
      var more := if sub.Empty() then [] else SubWrites(sub, vs, bg);
      RunAppend(BandWrites(dmg[..n], vs, bg, band), more, px, py, c);
      RunSub(sub, vs, bg, px, py, RunAt(BandWrites(dmg[..n], vs, bg, band), px, py, c));
    }
  }

  // ---------------------------------------------------------------- interleavings

  /** A write together with the band whose composition performs it. */
  datatype Tagged = Tagged(band: nat, w: Write)

  /** The writes of one band, in the order they happen. */
  function Own(il: seq<Tagged>, b: nat): seq<Write> {
    if il == [] then []
    else Own(il[..|il| - 1], b) + (if il[|il| - 1].band == b then [il[|il| - 1].w] else [])
  }

  function Untag(il: seq<Tagged>): (ws: seq<Write>)
    ensures |ws| == |il| && forall i :: 0 <= i < |il| ==> ws[i] == il[i].w
  {
    seq(|il|, i requires 0 <= i < |il| => il[i].w)
  }

  /** Every CPU runs the program of each band it claimed; their single-pixel writes mix arbitrarily. */
  ghost predicate Interleaves(il: seq<Tagged>, dmg: seq<Rect>, vs: seq<View>, bg: Rgb, box: Rect, n: nat)
    requires n > 0 && box.h >= 0
  {
    && (forall i :: 0 <= i < |il| ==> il[i].band < n)
    && (forall b :: 0 <= b < n ==> Own(il, b) == BandWrites(dmg, vs, bg, Band(box, n, b)))
  }

  lemma {:induction false} WritesStayInRect(x: int, y: int, w: nat, h: nat, act: Act)
    ensures forall i :: 0 <= i < |RectWrites(x, y, w, h, act)| ==>
              Rect(x, y, w, h).Has(RectWrites(x, y, w, h, act)[i].px, RectWrites(x, y, w, h, act)[i].py)
    decreases h
  {
    if h > 0 {
      WritesStayInRect(x, y, w, h - 1, act);
      WritesStayInRow(x, y + h - 1, w, act);
    }
  }

  lemma {:induction false} WritesStayInRow(x: int, y: int, w: nat, act: Act)
    ensures forall i :: 0 <= i < |RowWrites(x, y, w, act)| ==>
              x <= RowWrites(x, y, w, act)[i].px < x + w && RowWrites(x, y, w, act)[i].py == y
  {
    if w > 0 {
      WritesStayInRow(x, y, w - 1, act);
    }
  }

  ghost predicate AllIn(ws: seq<Write>, r: Rect) {
    forall i :: 0 <= i < |ws| ==> r.Has(ws[i].px, ws[i].py)
  }

  lemma WritesStay(r: Rect, act: Act, big: Rect)
    requires forall px, py :: r.Has(px, py) ==> big.Has(px, py)
    ensures AllIn(Writes(r, act), big)
  {
    if !r.Empty() {
      WritesStayInRect(r.x, r.y, r.w, r.h, act);
    }
  }

  lemma {:induction false} SubWritesStay(sub: Rect, vs: seq<View>, bg: Rgb, big: Rect)
    requires forall px, py :: sub.Has(px, py) ==> big.Has(px, py)
    ensures AllIn(SubWrites(sub, vs, bg), big)
  {
    if vs == [] {
      WritesStay(sub, Clear(bg), big);
    } else {
      SubWritesStay(sub, vs[..|vs| - 1], bg, big);
      var v := vs[|vs| - 1];
      WritesStay(Intersect(sub, v.geom.Bounds()), LayView(v), big);
    }
  }

  /** compose_band touches destination pixels of its own band only. */
  lemma {:induction false} BandWritesStay(dmg: seq<Rect>, vs: seq<View>, bg: Rgb, band: Rect)
    ensures AllIn(BandWrites(dmg, vs, bg, band), band)
  {
    if dmg != [] {
      BandWritesStay(dmg[..|dmg| - 1], vs, bg, band);
      SubWritesStay(Intersect(dmg[|dmg| - 1], band), vs, bg, band);
    }
  }

  /** If only writes of band `b` can touch a pixel, its value is that of band `b` running alone. */
  lemma {:induction false} OnlyOwnWritesMatter(il: seq<Tagged>, b: nat, px: int, py: int, c: Rgb)
    requires forall i :: 0 <= i < |il| && il[i].w.px == px && il[i].w.py == py ==> il[i].band == b
    ensures RunAt(Untag(il), px, py, c) == RunAt(Own(il, b), px, py, c)
  {
    if il != [] {
      var n := |il| - 1;
      OnlyOwnWritesMatter(il[..n], b, px, py, c);
      assert Untag(il)[..n] == Untag(il[..n]);
      var own := Own(il[..n], b);
      if il[n].band == b {
        assert (own + [il[n].w])[..|own|] == own;
      } else {
        assert Own(il, b) == own + [] == own;
      }
    }
  }

  lemma {:induction false} OwnHolds(il: seq<Tagged>, i: nat)
    requires i < |il|
    ensures il[i].w in Own(il, il[i].band)
  {
    if i < |il| - 1 {
      OwnHolds(il[..|il| - 1], i);
    }
  }

  lemma WriterIsInItsBand(il: seq<Tagged>, dmg: seq<Rect>, vs: seq<View>, bg: Rgb, box: Rect, n: nat, i: nat)
    requires !box.Empty() && n > 0 && Interleaves(il, dmg, vs, bg, box, n) && i < |il|
    ensures Band(box, n, il[i].band).Has(il[i].w.px, il[i].w.py)
  {
    hide Band;
    hide BandWrites;
    OwnHolds(il, i);
    BandWritesStay(dmg, vs, bg, Band(box, n, il[i].band));
  }

  /** However the bands are assigned and their writes interleaved, every pixel ends as in one
      sequential pass: painted if damaged, untouched otherwise. */
  lemma EveryInterleavingAgrees(il: seq<Tagged>, dmg: seq<Rect>, vs: seq<View>, bg: Rgb, box: Rect, n: nat,
                                px: int, py: int, c: Rgb)
    requires !box.Empty() && 0 < n <= box.h && Interleaves(il, dmg, vs, bg, box, n)
    requires Covered(dmg, px, py) ==> box.Has(px, py)
    ensures RunAt(Untag(il), px, py, c) == if Covered(dmg, px, py) then PaintAt(vs, bg, px, py) else c
  {
    hide Band;
    hide BandWrites;
    hide PaintAt;
    hide RunAt;
    BandsPartitionBox(box, n);
    var b: nat := if box.Has(px, py) then var i :| 0 <= i < n && Band(box, n, i).Has(px, py); i else 0;
    forall i | 0 <= i < |il| && il[i].w.px == px && il[i].w.py == py ensures il[i].band == b {
      WriterIsInItsBand(il, dmg, vs, bg, box, n, i);
    }
    OnlyOwnWritesMatter(il, b, px, py, c);
    RunBand(dmg, vs, bg, Band(box, n, b), px, py, c);
  }
}
