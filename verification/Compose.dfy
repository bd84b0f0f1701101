/** Composing into the back buffer and publishing to the scanout (src/compositor/parallel.c,
src/gpu/display.c), as loops over the real buffers.
*/
module Compose {
  import opened Rects
  import opened DamageList
  import opened Pixels
  import opened Blit
  import opened Scene
  import opened Bands

  // ---------------------------------------------------------------- one rectangle

  /** Pixels of `sub` show the painted surfaces, all others keep their word. */
  ghost predicate SubComposed(dst: seq<Pixel>, was: seq<Pixel>, stride: nat, sub: Rect, vs: seq<View>, bg: Rgb)
    requires stride > 0 && |dst| == |was|
  {
    forall k :: 0 <= k < |dst| ==>
      if At(k, stride, sub) then dst[k].Color() == PaintAt(vs, bg, k % stride, k / stride) else dst[k] == was[k]
  }

  lemma IndexOnScreen(k: nat, dw: nat, dh: nat)
    requires dw > 0 && k < dh * dw
    ensures 0 <= k % dw < dw && 0 <= k / dw < dh
  {
    RowOf(k, dh, dw);
  }

  /** A blitted pixel is the surface's ink laid over what was there. */
  lemma PaintedIsLaid(d: Pixel, was: Pixel, v: View, px: int, py: int)
    requires v.Valid() && v.geom.Contributes() && v.geom.Bounds().Has(px, py)
    requires PixelPainted(d, was, v.Source(), v.geom.Mode(), px - v.geom.x, py - v.geom.y)
    ensures d.Color() == Lay(InkAt(v, px, py), was.Color())
  {
    hide Coverage;
    hide Over;
  }

  /** One surface over one rectangle: skipped when it contributes nothing or does not overlap. Each pixel it
      covers ends as the surface's fields ask; every other keeps its colour. */
  method LayOne(isa: Isa, dst: array<Pixel>, dw: nat, dh: nat, sub: Rect, v: View)
    requires DstShape(dst.Length, dw, dh, dw) && v.Valid()
    modifies dst
    ensures forall k :: 0 <= k < dst.Length ==>
              if At(k, dw, sub) then dst[k].Color() == Lay(InkAt(v, k % dw, k / dw), old(dst[k]).Color())
              else dst[k] == old(dst[k])
    ensures forall k :: 0 <= k < dst.Length && At(k, dw, sub) ==>
              if v.geom.visible && v.geom.alpha > 0 && v.geom.Bounds().Has(k % dw, k / dw)
              then Leaves(v, k % dw, k / dw, old(dst[k]).Color(), dst[k].Color())
              else dst[k].Color() == old(dst[k]).Color()
  {
    hide InkAt, PixelPainted, Leaves;
    var g := v.geom;
    var srect := Rect(g.x, g.y, g.w, g.h);
    forall px, py {
      InkNeedsBounds(v, px, py);
    }
    forall px, py, under | g.Contributes() && g.Bounds().Has(px, py)
      ensures Leaves(v, px, py, under, Lay(InkAt(v, px, py), under))
    {
      LaidMeans(v, px, py, under);
    }
    if !g.visible || g.alpha == 0 {
      return;
    }
    if !Overlaps(srect, sub) {
      return;
    }
    ghost var was := dst[..];
    ghost var clip := BlitScissor(isa, dst, dw, dh, dw, sub, g.x, g.y, v.Source(), g.Mode());
    forall k | 0 <= k < dst.Length
      ensures if At(k, dw, sub) then dst[k].Color() == Lay(InkAt(v, k % dw, k / dw), was[k].Color())
              else dst[k] == was[k]
    {
      IndexOnScreen(k, dw, dh);
      assert dst[..][k] == dst[k];
      if At(k, dw, clip) {
        PaintedIsLaid(dst[k], was[k], v, k % dw, k / dw);
      }
    }
  }

  method ComposeSub(isa: Isa, dst: array<Pixel>, dw: nat, dh: nat, sub: Rect, vs: seq<View>, bg: Pixel)
    requires DstShape(dst.Length, dw, dh, dw) && forall i :: 0 <= i < |vs| ==> vs[i].Valid()
    modifies dst
    ensures SubComposed(dst[..], old(dst[..]), dw, sub, vs, bg.Color())
  {
    hide InkAt;
    ghost var was := dst[..];
    ghost var clip := FillScissor(dst, dw, dh, dw, sub, sub, bg);
    forall k | 0 <= k < dst.Length ensures dst[k] == if At(k, dw, sub) then bg else was[k] {
      IndexOnScreen(k, dw, dh);
      assert dst[..][k] == dst[k];
    }
    var i := 0;
    while i < |vs|
      invariant 0 <= i <= |vs|
      invariant SubComposed(dst[..], was, dw, sub, vs[..i], bg.Color())
    {
      ghost var before := dst[..];
      assert vs[..i + 1][..i] == vs[..i];
      LayOne(isa, dst, dw, dh, sub, vs[i]);
      forall k | 0 <= k < dst.Length
        ensures if At(k, dw, sub) then dst[k].Color() == PaintAt(vs[..i + 1], bg.Color(), k % dw, k / dw)
                else dst[k] == was[k]
      {
        assert before[k] == if At(k, dw, sub) then before[k] else was[k];
      }
      i := i + 1;
    }
    assert vs[..i] == vs;
  }

  // ---------------------------------------------------------------- bands

  /** The damaged pixels of `band` show the painted surfaces, all others keep their word. */
  ghost predicate BandComposed(dst: seq<Pixel>, was: seq<Pixel>, stride: nat, dmg: seq<Rect>, band: Rect, vs: seq<View>, bg: Rgb)
    requires stride > 0 && |dst| == |was|
  {
    forall k :: 0 <= k < |dst| ==>
      if Covered(dmg, k % stride, k / stride) && At(k, stride, band)
      then dst[k].Color() == PaintAt(vs, bg, k % stride, k / stride)
      else dst[k] == was[k]
  }

  method ComposeBand(isa: Isa, dst: array<Pixel>, dw: nat, dh: nat, dmg: Damage, vs: seq<View>, bg: Pixel, band: Rect)
    requires DstShape(dst.Length, dw, dh, dw) && forall i :: 0 <= i < |vs| ==> vs[i].Valid()
    requires dmg.Valid()
    modifies dst
    ensures BandComposed(dst[..], old(dst[..]), dw, dmg.List(), band, vs, bg.Color())
  {
    hide PaintAt;
    hide Intersect;
    ghost var was := dst[..];
    ghost var rs := dmg.List();
    var i := 0;
    while i < dmg.count
      invariant 0 <= i <= dmg.count
      invariant dmg.List() == rs
      invariant BandComposed(dst[..], was, dw, rs[..i], band, vs, bg.Color())
    {
      ghost var before := dst[..];
      var sub := Intersect(dmg.rects[i], band);
      assert dmg.rects[i] == rs[i] && rs[..i + 1][..i] == rs[..i];
      if !sub.Empty() {
        ComposeSub(isa, dst, dw, dh, sub, vs, bg);
      }
      BandStep(dst[..], before, was, dw, rs[..i + 1], band, vs, bg.Color());
      i := i + 1;
    }
    assert rs[..i] == rs;
  }

  lemma BandStep(dst: seq<Pixel>, before: seq<Pixel>, was: seq<Pixel>, dw: nat, rs: seq<Rect>, band: Rect, vs: seq<View>, bg: Rgb)
    requires dw > 0 && |dst| == |before| == |was| && rs != []
    requires BandComposed(before, was, dw, rs[..|rs| - 1], band, vs, bg)
    requires var sub := Intersect(rs[|rs| - 1], band);
             if sub.Empty() then dst == before else SubComposed(dst, before, dw, sub, vs, bg)
    ensures BandComposed(dst, was, dw, rs, band, vs, bg)
  {
    hide PaintAt;
    forall k | 0 <= k < |dst|
      ensures if Covered(rs, k % dw, k / dw) && At(k, dw, band)
              then dst[k].Color() == PaintAt(vs, bg, k % dw, k / dw) else dst[k] == was[k]
    {
      CoveredSnoc(rs, k % dw, k / dw);
    }
  }

  /** The damaged pixels inside the claimed bands show the painted surfaces. */
  ghost predicate Progress(dst: seq<Pixel>, was: seq<Pixel>, stride: nat, dmg: seq<Rect>, box: Rect, n: nat,
                           todo: set<nat>, vs: seq<View>, bg: Rgb)
    requires stride > 0 && |dst| == |was| && n > 0 && box.h >= 0
  {
    forall k, b :: 0 <= k < |dst| && 0 <= b < n && At(k, stride, Band(box, n, b)) ==>
      if b !in todo && Covered(dmg, k % stride, k / stride)
      then dst[k].Color() == PaintAt(vs, bg, k % stride, k / stride)
      else dst[k] == was[k]
  }

  /** Pixels outside the box are never written. */
  ghost predicate OutsideKept(dst: seq<Pixel>, was: seq<Pixel>, stride: nat, box: Rect)
    requires stride > 0 && |dst| == |was|
  {
    forall k :: 0 <= k < |dst| && !At(k, stride, box) ==> dst[k] == was[k]
  }

  /** Every damaged pixel shows the painted surfaces, every other keeps its word. */
  ghost predicate Composed(dst: seq<Pixel>, was: seq<Pixel>, stride: nat, dmg: seq<Rect>, vs: seq<View>, bg: Rgb)
    requires stride > 0 && |dst| == |was|
  {
    forall k :: 0 <= k < |dst| ==>
      if Covered(dmg, k % stride, k / stride) then dst[k].Color() == PaintAt(vs, bg, k % stride, k / stride)
      else dst[k] == was[k]
  }

  lemma BboxHolds(rs: seq<Rect>, px: int, py: int)
    requires Disjoint(rs)
    ensures Covered(rs, px, py) ==> BboxOf(rs).Has(px, py)
    ensures rs != [] ==> !BboxOf(rs).Empty()
  {
    if rs != [] {
      UnionAllIsBbox(rs[0], rs[1..]);
      assert forall i :: 0 < i < |rs| ==> rs[i] == rs[1..][i - 1];
    }
  }

  function Numbers(n: nat): (s: set<nat>)
    ensures forall b: nat :: b in s <==> b < n
  {
    if n == 0 then {} else Numbers(n - 1) + {n - 1}
  }

  /** Bands of the damage box, composed in whatever order the processors claim them. */
  method ParallelCompose(isa: Isa, dst: array<Pixel>, dw: nat, dh: nat, dmg: Damage, vs: seq<View>, bg: Pixel, cpus: nat)
    requires DstShape(dst.Length, dw, dh, dw) && forall i :: 0 <= i < |vs| ==> vs[i].Valid()
    requires dmg.Valid() && Disjoint(dmg.List())
    modifies dst
    ensures Composed(dst[..], old(dst[..]), dw, dmg.List(), vs, bg.Color())
  {
    hide PaintAt;
    hide Band;
    hide BboxOf;
    ghost var was := dst[..];
    ghost var rs := dmg.List();
    forall px, py {
      BboxHolds(rs, px, py);
    }
    if dmg.count == 0 {
      return;
    }
    BboxHolds(rs, 0, 0);
    var box := dmg.Bbox();
    var n := BandCount(cpus, box.h);
    BandsPartitionBox(box, n);
    var todo := Numbers(n);
    while todo != {}
      invariant forall b :: b in todo ==> b < n
      invariant dmg.Valid() && dmg.List() == rs
      invariant Progress(dst[..], was, dw, rs, box, n, todo, vs, bg.Color())
      invariant OutsideKept(dst[..], was, dw, box)
      decreases todo
    {
      var b :| b in todo;
      ghost var before := dst[..];
      ComposeBand(isa, dst, dw, dh, dmg, vs, bg, Band(box, n, b));
      ProgressStep(dst[..], before, was, dw, rs, box, n, todo, b, vs, bg.Color());
      todo := todo - {b};
    }
    AllDone(dst[..], was, dw, rs, box, n, vs, bg.Color());
  }

  lemma ProgressStep(dst: seq<Pixel>, before: seq<Pixel>, was: seq<Pixel>, dw: nat, rs: seq<Rect>, box: Rect, n: nat,
                     todo: set<nat>, b: nat, vs: seq<View>, bg: Rgb)
    requires dw > 0 && |dst| == |before| == |was| && !box.Empty() && 0 < n <= box.h && b < n && b in todo
    requires Progress(before, was, dw, rs, box, n, todo, vs, bg) && OutsideKept(before, was, dw, box)
    requires BandComposed(dst, before, dw, rs, Band(box, n, b), vs, bg)
    ensures Progress(dst, was, dw, rs, box, n, todo - {b}, vs, bg) && OutsideKept(dst, was, dw, box)
  {
    hide PaintAt;
    hide Band;
    BandsPartitionBox(box, n);
    forall k, c | 0 <= k < |dst| && 0 <= c < n && At(k, dw, Band(box, n, c))
      ensures if c !in todo - {b} && Covered(rs, k % dw, k / dw)
              then dst[k].Color() == PaintAt(vs, bg, k % dw, k / dw) else dst[k] == was[k]
    {
      if c != b {
        assert !At(k, dw, Band(box, n, b));
      }
    }
  }

  lemma AllDone(dst: seq<Pixel>, was: seq<Pixel>, dw: nat, rs: seq<Rect>, box: Rect, n: nat, vs: seq<View>, bg: Rgb)
    requires dw > 0 && |dst| == |was| && !box.Empty() && 0 < n <= box.h
    requires Progress(dst, was, dw, rs, box, n, {}, vs, bg) && OutsideKept(dst, was, dw, box)
    requires forall px, py :: Covered(rs, px, py) ==> box.Has(px, py)
    ensures Composed(dst, was, dw, rs, vs, bg)
  {
    hide PaintAt;
    hide Band;
    BandsPartitionBox(box, n);
    forall k | 0 <= k < |dst|
      ensures if Covered(rs, k % dw, k / dw) then dst[k].Color() == PaintAt(vs, bg, k % dw, k / dw) else dst[k] == was[k]
    {
      if At(k, dw, box) {
        var b :| 0 <= b < n && Band(box, n, b).Has(k % dw, k / dw);
        assert At(k, dw, Band(box, n, b));
      }
    }
  }

  // ---------------------------------------------------------------- publishing

  function ClampRect(r: Rect, dw: nat, dh: nat): (c: Rect)
    ensures forall px, py :: c.Has(px, py) <==> r.Has(px, py) && 0 <= px < dw && 0 <= py < dh
    ensures !c.Empty() ==> 0 <= c.x && c.x + c.w <= dw && 0 <= c.y && c.y + c.h <= dh
  {
    if r.w <= 0 || r.h <= 0 then NOTHING
    else
      var x0 := if r.x > 0 then r.x else 0;
      var y0 := if r.y > 0 then r.y else 0;
      var x1 := if r.x + r.w < dw then r.x + r.w else dw;
      var y1 := if r.y + r.h < dh then r.y + r.h else dh;
      if x1 <= x0 || y1 <= y0 then NOTHING else Rect(x0, y0, x1 - x0, y1 - y0)
  }

  /** The back buffer's word for scanout position `k`, whose rows are `hs` apart; black off screen. */
  function BackWord(back: seq<Pixel>, dw: nat, hs: nat, k: nat): Pixel
    requires 0 < hs
  {
    var j := (k / hs) * dw + k % hs;
    if j < |back| then back[j] else Pixel(0, 0, 0, 0)
  }

  /** The scanout shows the back buffer in the pixels of `r` and is unchanged elsewhere. */
  ghost predicate RectPublished(hw: seq<Pixel>, was: seq<Pixel>, back: seq<Pixel>, dw: nat, dh: nat, hs: nat, r: Rect)
    requires 0 < hs && dw <= hs && |back| == dh * dw && |hw| == |was|
    requires r.Empty() || (0 <= r.x && r.x + r.w <= dw && 0 <= r.y && r.y + r.h <= dh)
  {
    forall k :: 0 <= k < |hw| ==>
      hw[k] == if At(k, hs, r) then BackWord(back, dw, hs, k) else was[k]
  }

  method CopyRun(hw: array<Pixel>, h0: nat, back: array<Pixel>, b0: nat, n: nat)
    requires h0 + n <= hw.Length && b0 + n <= back.Length && hw != back
    modifies hw
    ensures forall k :: 0 <= k < hw.Length ==>
              hw[k] == if h0 <= k < h0 + n then back[b0 + (k - h0)] else old(hw[k])
  {
    for x := 0 to n
      invariant forall k :: 0 <= k < hw.Length ==>
                  hw[k] == if h0 <= k < h0 + x then back[b0 + (k - h0)] else old(hw[k])
    {
      hw[h0 + x] := back[b0 + x];
    }
  }

  method PresentRect(back: array<Pixel>, hw: array<Pixel>, dw: nat, dh: nat, hs: nat, r: Rect)
    requires back != hw && back.Length == dh * dw && 0 < hs && dw <= hs && hw.Length == dh * hs
    requires !r.Empty() && 0 <= r.x && r.x + r.w <= dw && 0 <= r.y && r.y + r.h <= dh
    modifies hw
    ensures RectPublished(hw[..], old(hw[..]), back[..], dw, dh, hs, r)
  {
    hide BackWord, RectPublished;
    ghost var was, bk := hw[..], back[..];
    var y := 0;
    NothingPublished(was, bk, dw, dh, hs, r);
    while y < r.h
      invariant 0 <= y <= r.h && back[..] == bk
      invariant RectPublished(hw[..], was, bk, dw, dh, hs, r.(h := y))
    {
      var row := r.y + y;
      RowInBuffer(row, dh, hs, r.x + r.w);
      RowInBuffer(row, dh, dw, r.x + r.w);
      ghost var before := hw[..];
      var h0, b0 := row * hs + r.x, row * dw + r.x;
      CopyRun(hw, h0, back, b0, r.w);
      RowPublished(hw[..], before, was, bk, dw, dh, hs, r.(h := y), h0, b0);
      y := y + 1;
    }
  }

  lemma NothingPublished(hw: seq<Pixel>, back: seq<Pixel>, dw: nat, dh: nat, hs: nat, r: Rect)
    requires 0 < hs && dw <= hs && |back| == dh * dw
    ensures RectPublished(hw, hw, back, dw, dh, hs, r.(h := 0))
  {
    hide BackWord;
  }

  /** Copying one more row publishes one more row of the rectangle. */
  lemma RowPublished(hw: seq<Pixel>, before: seq<Pixel>, was: seq<Pixel>, back: seq<Pixel>, dw: nat, dh: nat, hs: nat,
                     r: Rect, h0: nat, b0: nat)
    requires 0 < hs && dw <= hs && |back| == dh * dw && |hw| == |before| == |was|
    requires 0 <= r.x && 0 < r.w && r.x + r.w <= dw && 0 <= r.y && 0 <= r.h && r.y + r.h < dh
    requires h0 == (r.y + r.h) * hs + r.x && b0 == (r.y + r.h) * dw + r.x && b0 + r.w <= |back|
    requires RectPublished(before, was, back, dw, dh, hs, r)
    requires forall k :: 0 <= k < |hw| ==> hw[k] == if h0 <= k < h0 + r.w then back[b0 + (k - h0)] else before[k]
    ensures RectPublished(hw, was, back, dw, dh, hs, r.(h := r.h + 1))
  {
    hide BackWord;
    hide At;
    forall k | 0 <= k < |hw|
      ensures hw[k] == if At(k, hs, r.(h := r.h + 1)) then BackWord(back, dw, hs, k) else was[k]
    {
      RowIsRun(k, hs, r);
      if h0 <= k < h0 + r.w {
        RunWord(back, dw, dh, hs, k, r.y + r.h, r.x + (k - h0));
      }
    }
  }

  lemma RunWord(back: seq<Pixel>, dw: nat, dh: nat, hs: nat, k: nat, row: nat, x: nat)
    requires 0 < hs && dw <= hs && |back| == dh * dw && x < dw && row < dh
    requires k % hs == x && k / hs == row
    ensures row * dw + x < |back| && BackWord(back, dw, hs, k) == back[row * dw + x]
  {
    RowInBuffer(row, dh, dw, x + 1);
  }

  /** The scanout shows the back buffer in every damaged pixel and is unchanged elsewhere. */
  ghost predicate Published(hw: seq<Pixel>, was: seq<Pixel>, back: seq<Pixel>, dw: nat, dh: nat, hs: nat, rs: seq<Rect>)
    requires 0 < hs && dw <= hs && |back| == dh * dw && |hw| == |was|
  {
    forall k :: 0 <= k < |hw| ==>
      hw[k] == if k % hs < dw && k / hs < dh && Covered(rs, k % hs, k / hs) then BackWord(back, dw, hs, k) else was[k]
  }

  method PresentDamage(back: array<Pixel>, hw: array<Pixel>, dw: nat, dh: nat, hs: nat, dmg: Damage)
    requires back != hw && back.Length == dh * dw && 0 < hs && dw <= hs && hw.Length == dh * hs
    requires dmg.Valid()
    modifies hw
    ensures Published(hw[..], old(hw[..]), back[..], dw, dh, hs, dmg.List())
  {
    hide BackWord;
    hide ClampRect;
    ghost var was, bk, rs := hw[..], back[..], dmg.List();
    var i := 0;
    while i < dmg.count
      invariant 0 <= i <= dmg.count && dmg.List() == rs && back[..] == bk
      invariant Published(hw[..], was, bk, dw, dh, hs, rs[..i])
    {
      ghost var before := hw[..];
      assert dmg.rects[i] == rs[i] && rs[..i + 1][..i] == rs[..i];
      var c := ClampRect(dmg.rects[i], dw, dh);
      if !c.Empty() {
        PresentRect(back, hw, dw, dh, hs, c);
      }
      PublishStep(hw[..], before, was, bk, dw, dh, hs, rs[..i + 1]);
      i := i + 1;
    }
    assert rs[..i] == rs;
  }

  lemma PublishStep(hw: seq<Pixel>, before: seq<Pixel>, was: seq<Pixel>, back: seq<Pixel>, dw: nat, dh: nat, hs: nat, rs: seq<Rect>)
    requires 0 < hs && dw <= hs && |back| == dh * dw && |hw| == |before| == |was| && rs != []
    requires Published(before, was, back, dw, dh, hs, rs[..|rs| - 1])
    requires var c := ClampRect(rs[|rs| - 1], dw, dh);
             if c.Empty() then hw == before else RectPublished(hw, before, back, dw, dh, hs, c)
    ensures Published(hw, was, back, dw, dh, hs, rs)
  {
    hide BackWord;
    hide ClampRect;
    hide Covered;
    var c := ClampRect(rs[|rs| - 1], dw, dh);
    forall k | 0 <= k < |hw|
      ensures hw[k] == if k % hs < dw && k / hs < dh && Covered(rs, k % hs, k / hs) then BackWord(back, dw, hs, k)
                       else was[k]
    {
      CoveredOnScreen(rs, k % hs, k / hs, dw, dh);
      assert At(k, hs, c) <==> c.Has(k % hs, k / hs);
      assert hw[k] == if c.Has(k % hs, k / hs) then BackWord(back, dw, hs, k) else before[k];
    }
  }

  lemma CoveredOnScreen(rs: seq<Rect>, px: nat, py: nat, dw: nat, dh: nat)
    requires rs != []
    ensures px < dw && py < dh && Covered(rs, px, py) <==>
            (px < dw && py < dh && Covered(rs[..|rs| - 1], px, py)) || ClampRect(rs[|rs| - 1], dw, dh).Has(px, py)
  {
    CoveredSnoc(rs, px, py);
  }
}
