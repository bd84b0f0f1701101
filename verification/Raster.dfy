/** The path rasterizer (src/compositor/path_raster.c): curve flattening, non-zero winding in exact integer
arithmetic, and the clipped supersampling fill. Coordinates are sixteenths of a pixel.
*/
module Raster {
  import opened Pixels
  import Division
  import Blit

  const UNIT: nat := 16

  datatype Pt = Pt(x: int, y: int)

  // ---------------------------------------------------------------- winding

  /** What edge (a, b) adds to the winding number at (px, py): it counts when it crosses the horizontal
      line through the point strictly to the right of it. */
  function Crossing(px: int, py: int, a: Pt, b: Pt): int {
    var den := b.y - a.y;
    if den == 0 then 0
    else if (a.y > py) == (b.y > py) then 0
    else
      var num := a.x * (b.y - a.y) + (b.x - a.x) * (py - a.y);
      var den' := if den < 0 then -den else den;
      var num' := if den < 0 then -num else num;
      if num' > px * den' then (if b.y > a.y then 1 else -1) else 0
  }

  function Successor(vs: seq<Pt>, i: nat): Pt
    requires i < |vs|
  {
    vs[if i + 1 == |vs| then 0 else i + 1]
  }

  lemma SuccessorIndex(n: nat, i: nat)
    requires i < n
    ensures (i + 1) % n == if i + 1 == n then 0 else i + 1
  {
    if i + 1 < n {
      assert (i + 1) / n == 0;
    }
  }

  function CrossingsTo(px: int, py: int, vs: seq<Pt>, k: nat): int
    requires k <= |vs|
  {
    if k == 0 then 0 else CrossingsTo(px, py, vs, k - 1) + Crossing(px, py, vs[k - 1], Successor(vs, k - 1))
  }

  /** Winding number of a closed contour. */
  function Winding(px: int, py: int, vs: seq<Pt>): int {
    if |vs| < 2 then 0 else CrossingsTo(px, py, vs, |vs|)
  }

  method WindingAt(px: int, py: int, vs: seq<Pt>) returns (w: int)
    ensures w == Winding(px, py, vs)
  {
    hide Crossing;
    w := 0;
    var n := |vs|;
    if n < 2 {
      return;
    }
    for i := 0 to n
      invariant w == CrossingsTo(px, py, vs, i)
    {
      var j := (i + 1) % n;
      SuccessorIndex(n, i);
      var c := EdgeAt(px, py, vs[i], vs[j]);
      w := w + c;
    }
  }

  method EdgeAt(px: int, py: int, a: Pt, b: Pt) returns (c: int)
    ensures c == Crossing(px, py, a, b)
  {
    c := 0;
    var den := b.y - a.y;
    if den == 0 {
      return;
    }
    if (a.y > py) == (b.y > py) {
      return;
    }
    var num := a.x * (b.y - a.y) + (b.x - a.x) * (py - a.y);
    if den < 0 {
      den, num := -den, -num;
    }
    if num > px * den {
      c := if b.y > a.y then 1 else -1;
    }
  }

  /** The crossing abscissa is a weighted mean of the end points. */
  lemma WeightedCrossing(px: int, py: int, a: Pt, b: Pt)
    ensures a.x * (b.y - a.y) + (b.x - a.x) * (py - a.y) == a.x * (b.y - py) + b.x * (py - a.y)
  {
  }

  lemma MeanBelow(x: int, y: int, u: int, v: int, m: int)
    requires x <= m && y <= m && u >= 0 && v >= 0
    ensures x * u + y * v <= m * (u + v)
  {
    assert (m - x) * u >= 0 && (m - y) * v >= 0;
  }

  lemma MeanAbove(x: int, y: int, u: int, v: int, m: int)
    requires x > m && y > m && u >= 0 && v >= 0 && u + v > 0
    ensures x * u + y * v > m * (u + v)
  {
    MeanBelow(-x, -y, u, v, -m - 1);
    assert -x * u == -(x * u) && -y * v == -(y * v) && (-m - 1) * (u + v) == -(m * (u + v)) - (u + v);
  }

  function Above(y: int, py: int): int {
    if y > py then 1 else 0
  }

  /** To the right of both ends an edge counts nothing; to the left of both it counts its change of side. */
  lemma CrossingOutside(px: int, py: int, a: Pt, b: Pt)
    ensures a.x <= px && b.x <= px ==> Crossing(px, py, a, b) == 0
    ensures a.x > px && b.x > px ==> Crossing(px, py, a, b) == Above(b.y, py) - Above(a.y, py)
    ensures Above(a.y, py) == Above(b.y, py) ==> Crossing(px, py, a, b) == 0
  {
    WeightedCrossing(px, py, a, b);
    var u, v := b.y - py, py - a.y;
    if a.y <= py < b.y {
      if a.x <= px && b.x <= px {
        MeanBelow(a.x, b.x, u, v, px);
      }
      if a.x > px && b.x > px {
        MeanAbove(a.x, b.x, u, v, px);
      }
    } else if b.y <= py < a.y {
      assert -(a.x * u + b.x * v) == a.x * (-u) + b.x * (-v);
      if a.x <= px && b.x <= px {
        MeanBelow(a.x, b.x, -u, -v, px);
      }
      if a.x > px && b.x > px {
        MeanAbove(a.x, b.x, -u, -v, px);
      }
    }
  }

  lemma {:induction false} NoCrossings(px: int, py: int, vs: seq<Pt>, k: nat)
    requires k <= |vs| && forall i :: 0 <= i < k ==> Crossing(px, py, vs[i], Successor(vs, i)) == 0
    ensures CrossingsTo(px, py, vs, k) == 0
  {
    hide Crossing;
    if k > 0 {
      NoCrossings(px, py, vs, k - 1);
    }
  }

  /** Left of the contour the signed crossings telescope. */
  lemma {:induction false} CrossingsTelescope(px: int, py: int, vs: seq<Pt>, k: nat)
    requires k <= |vs| && vs != [] && forall i :: 0 <= i < |vs| ==> vs[i].x > px
    ensures CrossingsTo(px, py, vs, k) == Above(vs[if k == |vs| then 0 else k].y, py) - Above(vs[0].y, py)
  {
    hide Crossing;
    if k > 0 {
      CrossingsTelescope(px, py, vs, k - 1);
      CrossingOutside(px, py, vs[k - 1], Successor(vs, k - 1));
    }
  }

  ghost predicate Outside(px: int, py: int, vs: seq<Pt>) {
    || (forall i :: 0 <= i < |vs| ==> vs[i].x <= px)
    || (forall i :: 0 <= i < |vs| ==> vs[i].x > px)
    || (forall i :: 0 <= i < |vs| ==> vs[i].y <= py)
    || (forall i :: 0 <= i < |vs| ==> vs[i].y > py)
  }

  /** Every closed contour winds zero times around every point left of, right of, above or below it. */
  lemma OutsideWindsZero(px: int, py: int, vs: seq<Pt>)
    requires Outside(px, py, vs)
    ensures Winding(px, py, vs) == 0
  {
    hide Crossing;
    if |vs| >= 2 {
      if forall i :: 0 <= i < |vs| ==> vs[i].x > px {
        CrossingsTelescope(px, py, vs, |vs|);
      } else {
        forall i | 0 <= i < |vs| ensures Crossing(px, py, vs[i], Successor(vs, i)) == 0 {
          CrossingOutside(px, py, vs[i], Successor(vs, i));
        }
        NoCrossings(px, py, vs, |vs|);
      }
    }
  }

  // ---------------------------------------------------------------- bounding box

  /** C division by sixteen: towards zero. */
  function Trunc(v: int): (q: int)
    ensures UNIT * (q - 1) < v < UNIT * (q + 1)
  {
    if v >= 0 then v / UNIT else -((-v) / UNIT)
  }

  /** Smallest box of whole pixels around the vertices, widened by two pixels on every side. */
  datatype Box = Box(minx: int, miny: int, maxx: int, maxy: int)

  predicate InBox(box: Box, p: Pt) {
    && box.minx + 2 <= Trunc(p.x) <= box.maxx - 2
    && box.miny + 2 <= Trunc(p.y) <= box.maxy - 2
  }

  ghost predicate BoxOf(box: Box, cs: seq<seq<Pt>>) {
    forall c, i :: 0 <= c < |cs| && 0 <= i < |cs[c]| ==> InBox(box, cs[c][i])
  }

  method BboxContours(cs: seq<seq<Pt>>) returns (box: Box)
    ensures BoxOf(box, cs)
    ensures (forall c :: 0 <= c < |cs| ==> cs[c] == []) ==> box == Box(0, 0, 0, 0)
  {
    hide Trunc;
    var mnX, mnY := 0x7fff_ffff, 0x7fff_ffff;
    var mxX, mxY := -0x8000_0000, -0x8000_0000;
    var any := false;
    for k := 0 to |cs|
      invariant any <==> exists c :: 0 <= c < k && cs[c] != []
      invariant forall c, i :: 0 <= c < k && 0 <= i < |cs[c]| ==> InBox(Box(mnX - 2, mnY - 2, mxX + 2, mxY + 2), cs[c][i])
    {
      ghost var b0, had := Box(mnX - 2, mnY - 2, mxX + 2, mxY + 2), any;
      for i := 0 to |cs[k]|
        invariant any <==> had || i > 0
        invariant mnX <= b0.minx + 2 && mnY <= b0.miny + 2 && mxX >= b0.maxx - 2 && mxY >= b0.maxy - 2
        invariant forall j :: 0 <= j < i ==> InBox(Box(mnX - 2, mnY - 2, mxX + 2, mxY + 2), cs[k][j])
      {
        var x, y := Trunc(cs[k][i].x), Trunc(cs[k][i].y);
        any := true;
        if x < mnX {
          mnX := x;
        }
        if y < mnY {
          mnY := y;
        }
        if x > mxX {
          mxX := x;
        }
        if y > mxY {
          mxY := y;
        }
      }
    }
    if !any {
      return Box(0, 0, 0, 0);
    }
    box := Box(mnX - 2, mnY - 2, mxX + 2, mxY + 2);
  }

  // ---------------------------------------------------------------- supersampling

  /** Subsample `k` (0 to 15) of pixel (ox, oy). */
  function SampleX(ox: int, k: nat): int {
    ox * UNIT + (k % 4) * 4 + 2
  }

  function SampleY(oy: int, k: nat): int {
    oy * UNIT + (k / 4) * 4 + 2
  }

  function WindingSum(px: int, py: int, cs: seq<seq<Pt>>): int {
    if cs == [] then 0 else WindingSum(px, py, cs[..|cs| - 1]) + Winding(px, py, cs[|cs| - 1])
  }

  /** How many of the first `k` subsamples of a pixel are inside the path. */
  function Hits(ox: int, oy: int, cs: seq<seq<Pt>>, k: nat): (h: nat)
    ensures h <= k
  {
    if k == 0 then 0
    else Hits(ox, oy, cs, k - 1) + (if WindingSum(SampleX(ox, k - 1), SampleY(oy, k - 1), cs) != 0 then 1 else 0)
  }

  lemma {:induction false} SumOfZeros(px: int, py: int, cs: seq<seq<Pt>>)
    requires forall c :: 0 <= c < |cs| ==> Winding(px, py, cs[c]) == 0
    ensures WindingSum(px, py, cs) == 0
  {
    if cs != [] {
      SumOfZeros(px, py, cs[..|cs| - 1]);
    }
  }

  predicate PixelInBox(box: Box, ox: int, oy: int) {
    box.minx <= ox <= box.maxx && box.miny <= oy <= box.maxy
  }

  lemma SampleOutside(box: Box, ox: int, oy: int, vs: seq<Pt>, k: nat)
    requires k < 16 && !PixelInBox(box, ox, oy) && forall i :: 0 <= i < |vs| ==> InBox(box, vs[i])
    ensures Outside(SampleX(ox, k), SampleY(oy, k), vs)
  {
    hide Trunc;
    assert 0 <= k % 4 <= 3 && 0 <= k / 4 <= 3;
  }

  /** A pixel outside the box has no covered subsample, whatever the sign of the coordinates: clipping
      the fill to the box loses nothing. */
  lemma {:induction false} NoHitsOutsideBox(box: Box, cs: seq<seq<Pt>>, ox: int, oy: int, k: nat)
    requires BoxOf(box, cs) && !PixelInBox(box, ox, oy) && k <= 16
    ensures Hits(ox, oy, cs, k) == 0
  {
    hide Winding;
    if k > 0 {
      NoHitsOutsideBox(box, cs, ox, oy, k - 1);
      var px, py := SampleX(ox, k - 1), SampleY(oy, k - 1);
      forall c | 0 <= c < |cs| ensures Winding(px, py, cs[c]) == 0 {
        SampleOutside(box, ox, oy, cs[c], k - 1);
        OutsideWindsZero(px, py, cs[c]);
      }
      SumOfZeros(px, py, cs);
    }
  }

  /** blend_over_px on a straight-alpha destination. */
  function BlendOver(d: Pixel, s: Pixel, sa: Byte): Pixel {
    if sa == 0 then d
    else if d.a == 0 && sa == 255 then s.(a := 255)
    else
      var inv := 255 - sa;
      Pixel(Clamp(sa + Mul8(d.a, inv)), Clamp(Mul8(s.r, sa) + Mul8(d.r, inv)), Clamp(Mul8(s.g, sa) + Mul8(d.g, inv)),
            Clamp(Mul8(s.b, sa) + Mul8(d.b, inv)))
  }

  function Alpha(hits: nat): Byte
    requires hits <= 16
  {
    (hits * 255 + 8) / 16
  }

  /** What filling a path does to one pixel, with no clipping to any box. */
  function Shaded(d: Pixel, argb: Pixel, cs: seq<seq<Pt>>, ox: int, oy: int): Pixel {
    BlendOver(d, argb.(a := 255), Alpha(Hits(ox, oy, cs, 16)))
  }

  lemma NoHitsNoChange(d: Pixel, argb: Pixel, cs: seq<seq<Pt>>, ox: int, oy: int)
    requires Hits(ox, oy, cs, 16) == 0
    ensures Shaded(d, argb, cs, ox, oy) == d
  {
  }

  method CountHits(ox: int, oy: int, cs: seq<seq<Pt>>) returns (hits: nat)
    ensures hits == Hits(ox, oy, cs, 16)
  {
    hide Winding, WindingSum, Hits;
    hits := 0;
    HitsStep(ox, oy, cs, 0);
    for sy := 0 to 4
      invariant hits == Hits(ox, oy, cs, 4 * sy)
    {
      for sx := 0 to 4
        invariant hits == Hits(ox, oy, cs, 4 * sy + sx)
      {
        var px, py := ox * UNIT + sx * 4 + 2, oy * UNIT + sy * 4 + 2;
        SampleAt(ox, oy, sx, sy);
        HitsStep(ox, oy, cs, 4 * sy + sx);
        var wsum := SumAt(px, py, cs);
        if wsum != 0 {
          hits := hits + 1;
        }
      }
    }
  }

  lemma SampleAt(ox: int, oy: int, sx: nat, sy: nat)
    requires sx < 4 && sy < 4
    ensures SampleX(ox, 4 * sy + sx) == ox * UNIT + sx * 4 + 2 && SampleY(oy, 4 * sy + sx) == oy * UNIT + sy * 4 + 2
  {}

  lemma HitsStep(ox: int, oy: int, cs: seq<seq<Pt>>, k: nat)
    ensures Hits(ox, oy, cs, 0) == 0
    ensures Hits(ox, oy, cs, k + 1)
         == Hits(ox, oy, cs, k) + (if WindingSum(SampleX(ox, k), SampleY(oy, k), cs) != 0 then 1 else 0)
  {
    hide WindingSum;
  }

  /** The winding numbers of all contours around one point. */
  method SumAt(px: int, py: int, cs: seq<seq<Pt>>) returns (wsum: int)
    ensures wsum == WindingSum(px, py, cs)
  {
    hide Winding;
    wsum := 0;
    for k := 0 to |cs|
      invariant wsum == WindingSum(px, py, cs[..k])
    {
      assert cs[..k + 1][..k] == cs[..k];
      var w := WindingAt(px, py, cs[k]);
      wsum := wsum + w;
    }
    assert cs[..|cs|] == cs;
  }

  /** Position (ox, oy) has been visited when the loops stand at (x, y). */
  predicate Visited(ox: int, oy: int, minx: int, maxx: int, miny: int, x: int, y: int) {
    (miny <= oy < y && minx <= ox <= maxx) || (oy == y && minx <= ox < x)
  }

  /** The visited pixels of a row-major buffer are shaded, the others as before. */
  ghost predicate ShadedTo(now: seq<Pixel>, was: seq<Pixel>, w: nat, argb: Pixel, cs: seq<seq<Pt>>,
                           minx: int, maxx: int, miny: int, x: int, y: int)
    requires w > 0
  {
    |now| == |was| && forall k :: 0 <= k < |now| ==>
      now[k] == if Visited(k % w, k / w, minx, maxx, miny, x, y) then Shaded(was[k], argb, cs, k % w, k / w) else was[k]
  }

  lemma ShadedOneMore(before: seq<Pixel>, now: seq<Pixel>, was: seq<Pixel>, w: nat, argb: Pixel, cs: seq<seq<Pt>>,
                      minx: int, maxx: int, miny: int, x: nat, y: nat)
    requires w > 0 && ShadedTo(before, was, w, argb, cs, minx, maxx, miny, x, y) && minx <= x < w && miny <= y
    requires y * w + x < |now| == |was| && now[y * w + x] == Shaded(was[y * w + x], argb, cs, x, y)
    requires forall k :: 0 <= k < |now| && k != y * w + x ==> now[k] == before[k]
    ensures ShadedTo(now, was, w, argb, cs, minx, maxx, miny, x + 1, y)
  {
    hide Shaded;
    Division.DivMod(y, x, w);
    forall k | 0 <= k < |now|
      ensures now[k] == if Visited(k % w, k / w, minx, maxx, miny, x + 1, y) then Shaded(was[k], argb, cs, k % w, k / w) else was[k]
    {
      Division.DivModBack(k, w);
    }
  }

  lemma NotYetShaded(now: seq<Pixel>, was: seq<Pixel>, w: nat, argb: Pixel, cs: seq<seq<Pt>>,
                     minx: int, maxx: int, miny: int, x: nat, y: nat)
    requires w > 0 && ShadedTo(now, was, w, argb, cs, minx, maxx, miny, x, y) && x < w && y * w + x < |now|
    ensures now[y * w + x] == was[y * w + x]
  {
    hide Shaded;
    Division.DivMod(y, x, w);
  }

  lemma RowShaded(now: seq<Pixel>, was: seq<Pixel>, w: nat, argb: Pixel, cs: seq<seq<Pt>>,
                  minx: int, maxx: int, miny: int, y: int)
    requires w > 0 && ShadedTo(now, was, w, argb, cs, minx, maxx, miny, maxx + 1, y) && miny <= y
    ensures ShadedTo(now, was, w, argb, cs, minx, maxx, miny, minx, y + 1)
  {
    hide Shaded;
  }

  lemma NothingShaded(was: seq<Pixel>, w: nat, argb: Pixel, cs: seq<seq<Pt>>, minx: int, maxx: int, miny: int)
    requires w > 0
    ensures ShadedTo(was, was, w, argb, cs, minx, maxx, miny, minx, miny)
  {
    hide Shaded;
  }

  /** The whole surface is shaded once the clipped box has been visited. */
  lemma BoxShaded(now: seq<Pixel>, was: seq<Pixel>, w: nat, h: nat, argb: Pixel, cs: seq<seq<Pt>>, box: Box,
                  minx: int, maxx: int, miny: int, maxy: int)
    requires w > 0 && |was| == h * w && BoxOf(box, cs)
    requires minx == (if box.minx < 0 then 0 else box.minx) && miny == (if box.miny < 0 then 0 else box.miny)
    requires maxx == (if box.maxx >= w then w - 1 else box.maxx) && maxy == (if box.maxy >= h then h - 1 else box.maxy)
    requires if maxx < minx || maxy < miny then now == was
             else ShadedTo(now, was, w, argb, cs, minx, maxx, miny, minx, maxy + 1)
    ensures |now| == |was|
    ensures forall k :: 0 <= k < |now| ==> now[k] == Shaded(was[k], argb, cs, k % w, k / w)
  {
    hide Shaded, Hits;
    forall k | 0 <= k < |was|
      ensures now[k] == Shaded(was[k], argb, cs, k % w, k / w)
    {
      Blit.IndexInRect(k, h, w);
      if !PixelInBox(box, k % w, k / w) {
        NoHitsOutsideBox(box, cs, k % w, k / w, 16);
        NoHitsNoChange(was[k], argb, cs, k % w, k / w);
      }
    }
  }

  /** fill_winding_ssaa on the row-major buffer of a surface: every pixel of the surface, inside the box or
      not, ends shaded by its coverage. */
  method FillWinding(pixels: array<Pixel>, w: nat, h: nat, cs: seq<seq<Pt>>, box: Box, argb: Pixel)
    requires w > 0 && pixels.Length == h * w && BoxOf(box, cs)
    modifies pixels
    ensures forall k :: 0 <= k < pixels.Length ==> pixels[..][k] == Shaded(old(pixels[..])[k], argb, cs, k % w, k / w)
  {
    hide Hits, BlendOver, Shaded, ShadedTo, BoxOf;
    ghost var was := pixels[..];
    var minx := if box.minx < 0 then 0 else box.minx;
    var miny := if box.miny < 0 then 0 else box.miny;
    var maxx := if box.maxx >= w then w - 1 else box.maxx;
    var maxy := if box.maxy >= h then h - 1 else box.maxy;
    if maxx < minx || maxy < miny {
      BoxShaded(pixels[..], was, w, h, argb, cs, box, minx, maxx, miny, maxy);
      return;
    }
    NothingShaded(was, w, argb, cs, minx, maxx, miny);
    var y := miny;
    while y <= maxy
      invariant miny <= y <= maxy + 1
      invariant ShadedTo(pixels[..], was, w, argb, cs, minx, maxx, miny, minx, y)
      decreases maxy - y
    {
      var x := minx;
      while x <= maxx
        invariant minx <= x <= maxx + 1
        invariant ShadedTo(pixels[..], was, w, argb, cs, minx, maxx, miny, x, y)
        decreases maxx - x
      {
        ShadeAt(pixels, w, h, cs, argb, minx, maxx, miny, x, y, was);
        x := x + 1;
      }
      RowShaded(pixels[..], was, w, argb, cs, minx, maxx, miny, y);
      y := y + 1;
    }
    BoxShaded(pixels[..], was, w, h, argb, cs, box, minx, maxx, miny, maxy);
  }

  /** The body of the inner loop. */
  method ShadeAt(pixels: array<Pixel>, w: nat, h: nat, cs: seq<seq<Pt>>, argb: Pixel,
                 ghost minx: int, ghost maxx: int, ghost miny: int, x: nat, y: nat, ghost was: seq<Pixel>)
    requires w > 0 && pixels.Length == h * w == |was| && minx <= x < w && miny <= y < h
    requires ShadedTo(pixels[..], was, w, argb, cs, minx, maxx, miny, x, y)
    modifies pixels
    ensures ShadedTo(pixels[..], was, w, argb, cs, minx, maxx, miny, x + 1, y)
  {
    hide Hits, BlendOver, Shaded, ShadedTo;
    Blit.RowInBuffer(y, h, w, x + 1);
    ghost var before := pixels[..];
    NotYetShaded(before, was, w, argb, cs, minx, maxx, miny, x, y);
    var i := y * w + x;
    var hits := CountHits(x, y, cs);
    if hits == 0 {
      NoHitsNoChange(was[i], argb, cs, x, y);
    } else {
      ShadedIs(was[i], argb, cs, x, y);
      pixels[i] := BlendOver(pixels[i], argb.(a := 255), Alpha(hits));
    }
    ShadedOneMore(before, pixels[..], was, w, argb, cs, minx, maxx, miny, x, y);
  }

  lemma ShadedIs(d: Pixel, argb: Pixel, cs: seq<seq<Pt>>, ox: int, oy: int)
    ensures Shaded(d, argb, cs, ox, oy) == BlendOver(d, argb.(a := 255), Alpha(Hits(ox, oy, cs, 16)))
  {
  }

  /** A rectangle winds once around exactly the points inside it. */
  lemma RectangleWindsOnce(x0: int, y0: int, x1: int, y1: int, px: int, py: int)
    requires x0 < x1 && y0 < y1
    ensures Winding(px, py, [Pt(x0, y0), Pt(x1, y0), Pt(x1, y1), Pt(x0, y1)]) ==
            if x0 <= px < x1 && y0 <= py < y1 then 1 else 0
  {
    hide Crossing;
    var a, b, c, d := Pt(x0, y0), Pt(x1, y0), Pt(x1, y1), Pt(x0, y1);
    var vs := [a, b, c, d];
    CrossingOutside(px, py, a, b);
    CrossingOutside(px, py, b, c);
    CrossingOutside(px, py, c, d);
    CrossingOutside(px, py, d, a);
    assert CrossingsTo(px, py, vs, 0) == 0;
    assert CrossingsTo(px, py, vs, 1) == Crossing(px, py, a, b);
    assert CrossingsTo(px, py, vs, 2) == CrossingsTo(px, py, vs, 1) + Crossing(px, py, b, c);
    assert CrossingsTo(px, py, vs, 3) == CrossingsTo(px, py, vs, 2) + Crossing(px, py, c, d);
    assert CrossingsTo(px, py, vs, 4) == CrossingsTo(px, py, vs, 3) + Crossing(px, py, d, a);
  }

  // ---------------------------------------------------------------- sides and triangles

  /** Twice the area of (a, b, p): positive when p is on the left of the edge from a to b. */
  function Turn(a: Pt, b: Pt, p: Pt): int {
    (b.x - a.x) * (p.y - a.y) - (b.y - a.y) * (p.x - a.x)
  }

  /** An edge counts exactly when its rows hold the point and the point lies strictly on its left (going up) or
      strictly on its right (going down). */
  lemma CrossingIsSide(p: Pt, a: Pt, b: Pt)
    ensures Crossing(p.x, p.y, a, b)
         == if a.y <= p.y < b.y && Turn(a, b, p) > 0 then 1
            else if b.y <= p.y < a.y && Turn(a, b, p) < 0 then -1
            else 0
  {
    var num, den := a.x * (b.y - a.y) + (b.x - a.x) * (p.y - a.y), b.y - a.y;
    assert den * (p.x - a.x) == p.x * den - a.x * den;
    assert num - p.x * den == Turn(a, b, p);
    assert p.x * -den == -(p.x * den);
    hide Turn;
  }

  lemma TurnBack(a: Pt, b: Pt, p: Pt)
    ensures Turn(b, a, p) == -Turn(a, b, p)
  {
    var u, v, x, y := b.x - a.x, b.y - a.y, p.x - a.x, p.y - a.y;
    assert Turn(b, a, p) == -u * (y - v) - -v * (x - u);
    assert -u * (y - v) == -(u * y) + u * v && -v * (x - u) == -(v * x) + u * v;
  }

  /** The three areas around a point add up to the triangle's. */
  lemma TurnsAddUp(a: Pt, b: Pt, c: Pt, p: Pt)
    ensures Turn(a, b, p) + Turn(b, c, p) + Turn(c, a, p) == Turn(a, b, c)
  {
    hide *;
    TurnIs(a, b, p);
    TurnIs(b, c, p);
    TurnIs(c, a, p);
    TurnIs(a, b, c);
  }

  lemma TurnIs(a: Pt, b: Pt, p: Pt)
    ensures Turn(a, b, p) == b.x * p.y - a.x * p.y + a.x * b.y - b.x * a.y - b.y * p.x + a.y * p.x
  {
    assert (b.x - a.x) * (p.y - a.y) == b.x * p.y - a.x * p.y - b.x * a.y + a.x * a.y;
    assert (b.y - a.y) * (p.x - a.x) == b.y * p.x - a.y * p.x - b.y * a.x + a.y * a.x;
  }

  /** The point is the mean of the corners, weighted with the areas opposite them. */
  lemma AreasBalance(a: Pt, b: Pt, c: Pt, p: Pt)
    ensures Turn(b, c, p) * (a.y - p.y) + Turn(c, a, p) * (b.y - p.y) + Turn(a, b, p) * (c.y - p.y) == 0
  {
    var a1, a2, b1, b2, c1, c2 := a.x - p.x, a.y - p.y, b.x - p.x, b.y - p.y, c.x - p.x, c.y - p.y;
    TurnFrom(a, b, p);
    TurnFrom(b, c, p);
    TurnFrom(c, a, p);
    hide Turn;
    Cancel(a1, a2, b1, b2, c1, c2);
  }

  lemma TurnFrom(a: Pt, b: Pt, p: Pt)
    ensures Turn(a, b, p) == (a.x - p.x) * (b.y - p.y) - (b.x - p.x) * (a.y - p.y)
  {
    var a1, a2, b1, b2 := a.x - p.x, a.y - p.y, b.x - p.x, b.y - p.y;
    assert Turn(a, b, p) == (b1 - a1) * -a2 - (b2 - a2) * -a1;
    assert (b1 - a1) * -a2 == -(b1 * a2) + a1 * a2 && (b2 - a2) * -a1 == -(a1 * b2) + a1 * a2;
  }

  lemma Cancel(a1: int, a2: int, b1: int, b2: int, c1: int, c2: int)
    ensures (b1 * c2 - c1 * b2) * a2 + (c1 * a2 - a1 * c2) * b2 + (a1 * b2 - b1 * a2) * c2 == 0
  {
    assert (b1 * c2 - c1 * b2) * a2 == b1 * c2 * a2 - c1 * b2 * a2;
    assert (c1 * a2 - a1 * c2) * b2 == c1 * b2 * a2 - a1 * b2 * c2;
    assert (a1 * b2 - b1 * a2) * c2 == a1 * b2 * c2 - b1 * c2 * a2;
  }

  lemma TriangleSum(p: Pt, a: Pt, b: Pt, c: Pt)
    ensures Winding(p.x, p.y, [a, b, c]) == Crossing(p.x, p.y, a, b) + Crossing(p.x, p.y, b, c) + Crossing(p.x, p.y, c, a)
  {
    hide Crossing;
    var vs := [a, b, c];
    assert CrossingsTo(p.x, p.y, vs, 0) == 0;
    assert CrossingsTo(p.x, p.y, vs, 1) == Crossing(p.x, p.y, a, b);
    assert CrossingsTo(p.x, p.y, vs, 2) == CrossingsTo(p.x, p.y, vs, 1) + Crossing(p.x, p.y, b, c);
    assert CrossingsTo(p.x, p.y, vs, 3) == CrossingsTo(p.x, p.y, vs, 2) + Crossing(p.x, p.y, c, a);
  }

  lemma Product(x: int, y: int)
    ensures x > 0 && y > 0 ==> x * y > 0
    ensures x < 0 && y > 0 ==> x * y < 0
    ensures x >= 0 && y >= 0 ==> x * y >= 0
    ensures x <= 0 && y >= 0 ==> x * y <= 0
    ensures x >= 0 && y <= 0 ==> x * y <= 0
    ensures x <= 0 && y <= 0 ==> x * y >= 0
    ensures x > 0 && y < 0 ==> x * y < 0
    ensures x < 0 && y < 0 ==> x * y > 0
    ensures y == 0 ==> x * y == 0
  {}

  /** A triangle that goes round to the left, with its edge (a, b) going up through the row of p. */
  lemma UpEdge(p: Pt, a: Pt, b: Pt, c: Pt)
    requires Turn(a, b, c) > 0 && Turn(a, b, p) != 0 && Turn(b, c, p) != 0 && Turn(c, a, p) != 0
    requires a.y <= p.y < b.y
    ensures Crossing(p.x, p.y, a, b) + Crossing(p.x, p.y, b, c) + Crossing(p.x, p.y, c, a)
         == if Turn(a, b, p) > 0 && Turn(b, c, p) > 0 && Turn(c, a, p) > 0 then 1 else 0
  {
    CrossingIsSide(p, a, b);
    CrossingIsSide(p, b, c);
    CrossingIsSide(p, c, a);
    AreasBalance(a, b, c, p);
    TurnsAddUp(a, b, c, p);
    Product(Turn(b, c, p), a.y - p.y);
    Product(Turn(c, a, p), b.y - p.y);
    Product(Turn(a, b, p), c.y - p.y);
    hide Turn, Crossing;
  }

  lemma NoUpEdge(p: Pt, a: Pt, b: Pt, c: Pt)
    requires Turn(a, b, c) > 0
    requires !(a.y <= p.y < b.y) && !(b.y <= p.y < c.y) && !(c.y <= p.y < a.y)
    ensures Crossing(p.x, p.y, a, b) + Crossing(p.x, p.y, b, c) + Crossing(p.x, p.y, c, a) == 0
    ensures !(Turn(a, b, p) > 0 && Turn(b, c, p) > 0 && Turn(c, a, p) > 0)
  {
    CrossingIsSide(p, a, b);
    CrossingIsSide(p, b, c);
    CrossingIsSide(p, c, a);
    AreasBalance(a, b, c, p);
    Product(Turn(b, c, p), a.y - p.y);
    Product(Turn(c, a, p), b.y - p.y);
    Product(Turn(a, b, p), c.y - p.y);
    if a.y == p.y && b.y == p.y {
      assert Turn(a, b, p) == 0;
    }
    hide Turn, Crossing;
  }

  /** A triangle that goes round to the left winds once around exactly the points on the left of its three edges. */
  lemma TriangleWindsOnce(p: Pt, a: Pt, b: Pt, c: Pt)
    requires Turn(a, b, c) > 0 && Turn(a, b, p) != 0 && Turn(b, c, p) != 0 && Turn(c, a, p) != 0
    ensures Winding(p.x, p.y, [a, b, c]) == if Turn(a, b, p) > 0 && Turn(b, c, p) > 0 && Turn(c, a, p) > 0 then 1 else 0
  {
    TriangleSum(p, a, b, c);
    TurnsAround(a, b, c);
    hide Turn, Crossing, Winding;
    if a.y <= p.y < b.y {
      UpEdge(p, a, b, c);
    } else if b.y <= p.y < c.y {
      UpEdge(p, b, c, a);
    } else if c.y <= p.y < a.y {
      UpEdge(p, c, a, b);
    } else {
      NoUpEdge(p, a, b, c);
    }
  }

  lemma TurnsAround(a: Pt, b: Pt, c: Pt)
    ensures Turn(b, c, a) == Turn(a, b, c) && Turn(c, a, b) == Turn(a, b, c)
  {
    hide *;
    TurnIs(a, b, c);
    TurnIs(b, c, a);
    TurnIs(c, a, b);
  }

  /** The other way round it winds minus once. */
  lemma TriangleWindsBack(p: Pt, a: Pt, b: Pt, c: Pt)
    requires Turn(a, b, c) < 0 && Turn(a, b, p) != 0 && Turn(b, c, p) != 0 && Turn(c, a, p) != 0
    ensures Winding(p.x, p.y, [a, b, c]) == if Turn(a, b, p) < 0 && Turn(b, c, p) < 0 && Turn(c, a, p) < 0 then -1 else 0
  {
    TriangleSum(p, a, b, c);
    TriangleSum(p, a, c, b);
    CrossingBack(p, a, b);
    CrossingBack(p, b, c);
    CrossingBack(p, c, a);
    TurnsAround(a, b, c);
    TurnBack(b, c, a);
    TurnsAround(c, b, a);
    TurnBack(a, b, p);
    TurnBack(b, c, p);
    TurnBack(c, a, p);
    hide Turn, Crossing, Winding;
    TriangleWindsOnce(p, a, c, b);
  }

  lemma CrossingBack(p: Pt, a: Pt, b: Pt)
    ensures Crossing(p.x, p.y, b, a) == -Crossing(p.x, p.y, a, b)
  {
    CrossingIsSide(p, a, b);
    CrossingIsSide(p, b, a);
    TurnBack(a, b, p);
    hide Turn, Crossing;
  }

  // ---------------------------------------------------------------- what a fill does to a pixel

  /** Subsample (sx, sy) of a pixel is inside a rectangle given in quarter pixels exactly when the quarter cell it
      stands for is. */
  lemma QuarterRectangleHit(l: int, t: int, r: int, b: int, ox: int, oy: int, k: nat)
    requires l < r && t < b && k < 16
    ensures var box := [Pt(4 * l, 4 * t), Pt(4 * r, 4 * t), Pt(4 * r, 4 * b), Pt(4 * l, 4 * b)];
            WindingSum(SampleX(ox, k), SampleY(oy, k), [box]) != 0
            <==> l <= 4 * ox + k % 4 < r && t <= 4 * oy + k / 4 < b
  {
    hide Winding;
    var box := [Pt(4 * l, 4 * t), Pt(4 * r, 4 * t), Pt(4 * r, 4 * b), Pt(4 * l, 4 * b)];
    RectangleWindsOnce(4 * l, 4 * t, 4 * r, 4 * b, SampleX(ox, k), SampleY(oy, k));
    assert [box][..0] == [];
    assert WindingSum(SampleX(ox, k), SampleY(oy, k), []) == 0;
  }

  lemma {:induction false} AllHit(ox: int, oy: int, cs: seq<seq<Pt>>, k: nat)
    requires forall j :: 0 <= j < k ==> WindingSum(SampleX(ox, j), SampleY(oy, j), cs) != 0
    ensures Hits(ox, oy, cs, k) == k
  {
    hide WindingSum;
    if k > 0 {
      AllHit(ox, oy, cs, k - 1);
    }
  }

  lemma {:induction false} NoneHit(ox: int, oy: int, cs: seq<seq<Pt>>, k: nat)
    requires forall j :: 0 <= j < k ==> WindingSum(SampleX(ox, j), SampleY(oy, j), cs) == 0
    ensures Hits(ox, oy, cs, k) == 0
  {
    hide WindingSum;
    if k > 0 {
      NoneHit(ox, oy, cs, k - 1);
    }
  }

  /** Filling a rectangle of whole pixels paints exactly its pixels, with exactly the colour. */
  lemma WholeRectangleIsFilled(l: int, t: int, r: int, b: int, d: Pixel, argb: Pixel, ox: int, oy: int)
    requires l < r && t < b
    ensures var box := [Pt(16 * l, 16 * t), Pt(16 * r, 16 * t), Pt(16 * r, 16 * b), Pt(16 * l, 16 * b)];
            Shaded(d, argb, [box], ox, oy) == if l <= ox < r && t <= oy < b then argb.(a := 255) else d
  {
    hide Shaded, WindingSum, Hits;
    var box := [Pt(16 * l, 16 * t), Pt(16 * r, 16 * t), Pt(16 * r, 16 * b), Pt(16 * l, 16 * b)];
    forall k: nat | k < 16
      ensures WindingSum(SampleX(ox, k), SampleY(oy, k), [box]) != 0 <==> l <= ox < r && t <= oy < b
    {
      QuarterRectangleHit(4 * l, 4 * t, 4 * r, 4 * b, ox, oy, k);
    }
    if l <= ox < r && t <= oy < b {
      AllHit(ox, oy, [box], 16);
    } else {
      NoneHit(ox, oy, [box], 16);
    }
    ShadedMeans(d, argb, [box], ox, oy);
  }

  /** What shading does: nothing without a hit, the plain colour with sixteen, and otherwise a mix whose weight is
      the share of covered subsamples to the nearest step. */
  lemma ShadedMeans(d: Pixel, argb: Pixel, cs: seq<seq<Pt>>, ox: int, oy: int)
    ensures var o, h := Shaded(d, argb, cs, ox, oy), Hits(ox, oy, cs, 16);
            && (h == 0 ==> o == d)
            && (h == 16 ==> o == argb.(a := 255))
            && -8 <= 16 * Alpha(h) - 255 * h <= 8
            && MixedRgb(o.Color(), argb.Color(), d.Color(), 65025 * Alpha(h))
            && (h > 0 ==> -127 <= 255 * (o.a - Alpha(h)) - d.a * (255 - Alpha(h)) <= 127)
  {
    var h := Hits(ox, oy, cs, 16);
    BlendMeans(d, argb.(a := 255), Alpha(h));
    hide Hits, BlendOver, MixedRgb;
  }

  lemma BlendMeans(d: Pixel, s: Pixel, sa: Byte)
    requires s.a == 255
    ensures var o := BlendOver(d, s, sa);
            && (sa == 0 ==> o == d) && (sa == 255 ==> o == s)
            && MixedRgb(o.Color(), s.Color(), d.Color(), 65025 * sa)
            && (sa > 0 ==> -127 <= 255 * (o.a - sa) - d.a * (255 - sa) <= 127)
  {
    hide BlendOver, MixedRgb, Over;
    BlendColour(d, s, sa);
    BlendAlpha(d, s, sa);
    OverMixes(s.Color(), sa, d.Color(), 65025 * sa);
  }

  lemma BlendColour(d: Pixel, s: Pixel, sa: Byte)
    ensures BlendOver(d, s, sa).Color() == Over(s.Color(), sa, d.Color())
  {
    hide Mul8;
    ChannelSum(s.r, d.r, sa);
    ChannelSum(s.g, d.g, sa);
    ChannelSum(s.b, d.b, sa);
  }

  lemma BlendAlpha(d: Pixel, s: Pixel, sa: Byte)
    ensures var o := BlendOver(d, s, sa);
            && (sa == 0 ==> o == d) && (sa == 255 ==> o.a == 255)
            && (sa > 0 ==> -127 <= 255 * (o.a - sa) - d.a * (255 - sa) <= 127)
  {
    hide Mul8, BlendOver;
    AlphaIsSum(d, s, sa);
    Mul8Error(d.a, 255 - sa);
  }

  lemma AlphaIsSum(d: Pixel, s: Pixel, sa: Byte)
    ensures var o := BlendOver(d, s, sa);
            (sa == 0 ==> o == d) && (sa == 255 ==> o.a == 255) && (sa > 0 ==> o.a == sa + Mul8(d.a, 255 - sa))
  {
    hide Mul8;
    AlphaSumFits(d.a, sa);
    Mul8Ends(d.a);
    ZeroTimes(255 - sa);
  }

  lemma AlphaSumFits(da: Byte, sa: Byte)
    ensures sa + Mul8(da, 255 - sa) <= 255
  {
    hide Mul8;
    ChannelSum(255, da, sa);
    FullTimes(sa);
  }

  lemma ZeroTimes(a: Byte)
    ensures Mul8(0, a) == 0
  {}

  lemma FullTimes(a: Byte)
    ensures Mul8(255, a) == a
  {
    Mul8IsRoundedQuotient(255, a);
  }
}
