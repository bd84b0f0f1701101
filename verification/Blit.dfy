/** Scissored blits onto a row-major destination buffer (src/compositor/blit.c). */
module Blit {
  import opened Rects
  import opened Pixels
  import opened SimdRows
  import opened Roots
  import opened Division

  // ---------------------------------------------------------------- clipping

  /** A clipped placement: destination rectangle and the source offset of its first pixel. */
  datatype Clip = Nothing | Clip(r: Rect, sx: int, sy: int)

  function EffectiveClip(dw: int, dh: int, scissor: Rect): (c: Rect)
    ensures forall px, py :: c.Has(px, py) <==> 0 <= px < dw && 0 <= py < dh && scissor.Has(px, py)
  {
    var x0 := Max(scissor.x, 0);
    var y0 := Max(scissor.y, 0);
    var x1 := Min(scissor.x + scissor.w, dw);
    var y1 := Min(scissor.y + scissor.h, dh);
    if x1 <= x0 || y1 <= y0 then NOTHING else Rect(x0, y0, x1 - x0, y1 - y0)
  }

  /** Clip a placed rectangle against destination and scissor, keeping the source offset in step. */
  function ClipRect(dw: int, dh: int, scissor: Rect, r: Rect): (c: Clip)
    ensures c.Nothing? ==> forall px, py :: !(0 <= px < dw && 0 <= py < dh && scissor.Has(px, py) && r.Has(px, py))
    ensures c.Clip? ==> forall px, py ::
                c.r.Has(px, py) <==> 0 <= px < dw && 0 <= py < dh && scissor.Has(px, py) && r.Has(px, py)
    ensures c.Clip? ==> !c.r.Empty() && c.sx == c.r.x - r.x && c.sy == c.r.y - r.y
    ensures c.Clip? ==> 0 <= c.r.x && c.r.x + c.r.w <= dw && 0 <= c.r.y && c.r.y + c.r.h <= dh
    ensures c.Clip? ==> 0 <= c.sx && c.sx + c.r.w <= r.w && 0 <= c.sy && c.sy + c.r.h <= r.h
  {
    var e := EffectiveClip(dw, dh, scissor);
    if e.Empty() || r.Empty() then Nothing
    else
      var cx1, cy1 := e.x + e.w, e.y + e.h;
      var (x0, w, sx) := if r.x < e.x then (e.x, r.w - (e.x - r.x), e.x - r.x) else (r.x, r.w, 0);
      var (y0, h, sy) := if r.y < e.y then (e.y, r.h - (e.y - r.y), e.y - r.y) else (r.y, r.h, 0);
      if x0 >= cx1 || y0 >= cy1 then Nothing
      else
        var w' := if x0 + w > cx1 then cx1 - x0 else w;
        var h' := if y0 + h > cy1 then cy1 - y0 else h;
        if w' <= 0 || h' <= 0 then Nothing else Clip(Rect(x0, y0, w', h'), sx, sy)
  }

  // ---------------------------------------------------------------- row-major addressing

  /** Index `k` of a buffer with rows of `stride` pixels lies in rectangle `r`. */
  predicate At(k: nat, stride: nat, r: Rect)
    requires stride > 0
  {
    r.Has(k % stride, k / stride)
  }

  /** Adding one row to a rectangle adds exactly one run of indices. */
  lemma RowIsRun(k: nat, stride: nat, r: Rect)
    requires 0 <= r.x && 0 < r.w && r.x + r.w <= stride && 0 <= r.y && 0 <= r.h
    ensures var off := (r.y + r.h) * stride + r.x;
            At(k, stride, r.(h := r.h + 1)) <==> At(k, stride, r) || off <= k < off + r.w
    ensures var off := (r.y + r.h) * stride + r.x;
            off <= k < off + r.w ==> k % stride == r.x + (k - off) && k / stride == r.y + r.h
  {
    var q := r.y + r.h;
    var off := q * stride + r.x;
    if off <= k < off + r.w {
      DivMod(q, r.x + (k - off), stride);
    }
    if k / stride == q {
      DivModBack(k, stride);
    }
  }

  lemma RowInBuffer(y: nat, height: nat, stride: nat, x: nat)
    requires y < height && x <= stride
    ensures y * stride + x <= height * stride
  {
    assert (y + 1) * stride <= height * stride;
  }

  // ---------------------------------------------------------------- sources and inks

  /** A read-only source image, `stride` pixels to a row. */
  datatype Src = Src(pixels: seq<Pixel>, width: nat, height: nat, stride: nat) {
    predicate Valid() {
      width <= stride && |pixels| == height * stride
    }

    function Texel(lx: int, ly: int): Pixel
      requires Valid() && 0 <= lx < width && 0 <= ly < height
    {
      RowInBuffer(ly, height, stride, lx + 1);
      pixels[ly * stride + lx]
    }
  }

  /** The four blit flavours: opaque copy or straight alpha, with square or rounded corners. */
  datatype Mode = Copy | Alpha(ga: Byte) | CopyRounded(cr: nat) | AlphaRounded(ga: Byte, cr: nat)

  /** Coverage with which a texel is laid down. */
  function Coverage(mode: Mode, s: Pixel, lx: int, ly: int, w: int, h: int): Byte {
    match mode
    case Copy => 255
    case Alpha(ga) => Mul8(s.a, ga)
    case CopyRounded(cr) => CornerMask(lx, ly, w, h, cr)
    case AlphaRounded(ga, cr) => Mul8(Mul8(s.a, ga), CornerMask(lx, ly, w, h, cr))
  }

  datatype Isa = Scalar | Sse2 | Avx2

  // ---------------------------------------------------------------- rows

  /** `d` shows texel (lx, ly) laid over `was`. */
  ghost predicate PixelPainted(d: Pixel, was: Pixel, src: Src, mode: Mode, lx: int, ly: int)
    requires src.Valid() && 0 <= lx < src.width && 0 <= ly < src.height
  {
    var s := src.Texel(lx, ly);
    d.Color() == Over(s.Color(), Coverage(mode, s, lx, ly, src.width, src.height), was.Color())
  }

  /** `dst` differs from `was` exactly in the `n` positions from `d0`, which show the row's texels. */
  ghost predicate RowPainted(dst: seq<Pixel>, was: seq<Pixel>, d0: nat, src: Src, mode: Mode, sx: nat, sy: nat, n: nat)
    requires src.Valid() && sx + n <= src.width && sy < src.height && |dst| == |was|
  {
    forall k :: 0 <= k < |dst| ==>
      if d0 <= k < d0 + n then PixelPainted(dst[k], was[k], src, mode, sx + (k - d0), sy) else dst[k] == was[k]
  }

  method CopyRow(isa: Isa, dst: array<Pixel>, d0: nat, src: seq<Pixel>, s0: nat, n: nat)
    requires d0 + n <= dst.Length && s0 + n <= |src|
    modifies dst
    ensures forall k :: 0 <= k < dst.Length ==>
              dst[k] == if d0 <= k < d0 + n then CopyPixel(src[s0 + k - d0]) else old(dst[k])
  {
    match isa
    case Avx2 => CopyRowAvx2(dst, d0, src, s0, n);
    case Sse2 => CopyRowSse2(dst, d0, src, s0, n);
    case Scalar =>
      for x := 0 to n
        invariant forall k :: 0 <= k < dst.Length ==>
                    dst[k] == if d0 <= k < d0 + x then CopyPixel(src[s0 + k - d0]) else old(dst[k])
      {
        dst[d0 + x] := CopyPixel(src[s0 + x]);
      }
  }

  method AlphaRow(isa: Isa, dst: array<Pixel>, d0: nat, src: seq<Pixel>, s0: nat, ga: Byte, n: nat)
    requires d0 + n <= dst.Length && s0 + n <= |src|
    modifies dst
    ensures forall k :: 0 <= k < dst.Length ==>
              if d0 <= k < d0 + n then
                var s := src[s0 + k - d0];
                dst[k].Color() == Over(s.Color(), Mul8(s.a, ga), old(dst[k]).Color())
              else dst[k] == old(dst[k])
  {
    hide *;
    match isa
    case Avx2 => AlphaRowAvx2(dst, d0, src, s0, ga, n);
    case Sse2 => AlphaRowSse2(dst, d0, src, s0, ga, n);
    case Scalar =>
      for x := 0 to n
        invariant forall k :: 0 <= k < dst.Length ==>
                    dst[k] == if d0 <= k < d0 + x then AlphaWord(old(dst[k]), src[s0 + k - d0], ga, false)
                              else old(dst[k])
      {
        ScalarWord(dst[d0 + x], src[s0 + x], ga);
        dst[d0 + x] := AlphaPixel(dst[d0 + x], src[s0 + x], ga);
      }
  }

  /** A row that crosses a corner band: one masked pixel at a time. */
  method MaskedRow(dst: array<Pixel>, d0: nat, src: Src, mode: Mode, sx: nat, sy: nat, n: nat)
    requires src.Valid() && sx + n <= src.width && sy < src.height && d0 + n <= dst.Length
    requires src.width <= 16384 && src.height <= 16384
    requires (mode.CopyRounded? || mode.AlphaRounded?) && mode.cr <= 64
    modifies dst
    ensures RowPainted(dst[..], old(dst[..]), d0, src, mode, sx, sy, n)
  {
    hide Mul8;
    hide Over;
    hide CornerMask;
    hide BlendPixel;
    for x := 0 to n
      invariant RowPainted(dst[..], old(dst[..]), d0, src, mode, sx, sy, x)
    {
      var s := src.Texel(sx + x, sy);
      var m := RoundedCornerMask(sx + x, sy, src.width, src.height, mode.cr);
      var d := dst[d0 + x];
      var o := if mode.CopyRounded? then CopyMaskedPixel(d, s, m) else AlphaMaskedPixel(d, s, mode.ga, m);
      assert o.Color() == Over(s.Color(), Coverage(mode, s, sx + x, sy, src.width, src.height), d.Color());
      dst[d0 + x] := o;
    }
  }

  /** Outside the corner bands the mask is 255, so the rounded flavours reduce to the plain rows. */
  lemma PlainCoverage(mode: Mode, s: Pixel, lx: int, ly: int, w: int, h: int)
    requires 0 <= lx < w && 0 <= ly < h
    requires mode.Copy? || mode.Alpha? || !(ly < mode.cr || ly >= h - mode.cr)
    ensures (mode.Copy? || mode.CopyRounded?) ==> Coverage(mode, s, lx, ly, w, h) == 255
    ensures (mode.Alpha? || mode.AlphaRounded?) ==> Coverage(mode, s, lx, ly, w, h) == Mul8(s.a, mode.ga)
  {
    if mode.AlphaRounded? {
      Mul8Ends(Mul8(s.a, mode.ga));
    }
  }

  /** One destination row of a blit, on any instruction set. */
  method PaintRow(isa: Isa, dst: array<Pixel>, d0: nat, src: Src, mode: Mode, sx: nat, sy: nat, n: nat)
    requires src.Valid() && sx + n <= src.width && sy < src.height && d0 + n <= dst.Length
    requires src.width <= 16384 && src.height <= 16384
    requires (mode.CopyRounded? || mode.AlphaRounded?) ==> mode.cr <= 64
    modifies dst
    ensures RowPainted(dst[..], old(dst[..]), d0, src, mode, sx, sy, n)
  {
    hide Mul8, Over, CornerMask, Coverage, PixelPainted;
    if (mode.CopyRounded? || mode.AlphaRounded?) && (sy < mode.cr || sy >= src.height - mode.cr) {
      MaskedRow(dst, d0, src, mode, sx, sy, n);
      return;
    }
    RowInBuffer(sy, src.height, src.stride, sx + n);
    var s0 := sy * src.stride + sx;
    ghost var was := dst[..];
    if mode.Copy? || mode.CopyRounded? {
      CopyRow(isa, dst, d0, src.pixels, s0, n);
      CopiedRow(dst[..], was, d0, src, mode, sx, sy, n);
    } else {
      AlphaRow(isa, dst, d0, src.pixels, s0, mode.ga, n);
      BlendedRow(dst[..], was, d0, src, mode, sx, sy, n);
    }
  }

  /** The row crosses no corner band. */
  predicate Plain(mode: Mode, sy: int, height: int) {
    mode.Copy? || mode.Alpha? || !(sy < mode.cr || sy >= height - mode.cr)
  }

  lemma CopiedRow(now: seq<Pixel>, was: seq<Pixel>, d0: nat, src: Src, mode: Mode, sx: nat, sy: nat, n: nat)
    requires src.Valid() && sx + n <= src.width && sy < src.height && |now| == |was| && d0 + n <= |now|
    requires (mode.Copy? || mode.CopyRounded?) && Plain(mode, sy, src.height)
    requires 0 <= sy * src.stride + sx && sy * src.stride + sx + n <= |src.pixels|
    requires forall k :: 0 <= k < |now| ==>
               now[k] == if d0 <= k < d0 + n then CopyPixel(src.pixels[sy * src.stride + sx + k - d0]) else was[k]
    ensures RowPainted(now, was, d0, src, mode, sx, sy, n)
  {
    hide PixelPainted;
    forall k | d0 <= k < d0 + n
      ensures PixelPainted(now[k], was[k], src, mode, sx + (k - d0), sy)
    {
      assert src.pixels[sy * src.stride + sx + k - d0] == src.Texel(sx + (k - d0), sy);
      CopyIsPainted(now[k], was[k], src, mode, sx + (k - d0), sy);
    }
  }

  lemma BlendedRow(now: seq<Pixel>, was: seq<Pixel>, d0: nat, src: Src, mode: Mode, sx: nat, sy: nat, n: nat)
    requires src.Valid() && sx + n <= src.width && sy < src.height && |now| == |was| && d0 + n <= |now|
    requires (mode.Alpha? || mode.AlphaRounded?) && Plain(mode, sy, src.height)
    requires 0 <= sy * src.stride + sx && sy * src.stride + sx + n <= |src.pixels|
    requires forall k :: 0 <= k < |now| ==>
               if d0 <= k < d0 + n then
                 var s := src.pixels[sy * src.stride + sx + k - d0];
                 now[k].Color() == Over(s.Color(), Mul8(s.a, mode.ga), was[k].Color())
               else now[k] == was[k]
    ensures RowPainted(now, was, d0, src, mode, sx, sy, n)
  {
    hide PixelPainted, Over, Mul8;
    forall k | d0 <= k < d0 + n
      ensures PixelPainted(now[k], was[k], src, mode, sx + (k - d0), sy)
    {
      assert src.pixels[sy * src.stride + sx + k - d0] == src.Texel(sx + (k - d0), sy);
      AlphaIsPainted(now[k], was[k], src, mode, sx + (k - d0), sy);
    }
  }

  /** A copied texel is a painted one, outside the corner bands. */
  lemma CopyIsPainted(d: Pixel, was: Pixel, src: Src, mode: Mode, lx: int, ly: int)
    requires src.Valid() && 0 <= lx < src.width && 0 <= ly < src.height
    requires mode.Copy? || (mode.CopyRounded? && !(ly < mode.cr || ly >= src.height - mode.cr))
    requires d == CopyPixel(src.Texel(lx, ly))
    ensures PixelPainted(d, was, src, mode, lx, ly)
  {
    PlainCoverage(mode, src.Texel(lx, ly), lx, ly, src.width, src.height);
    hide Coverage, Channel;
  }

  lemma AlphaIsPainted(d: Pixel, was: Pixel, src: Src, mode: Mode, lx: int, ly: int)
    requires src.Valid() && 0 <= lx < src.width && 0 <= ly < src.height
    requires mode.Alpha? || (mode.AlphaRounded? && !(ly < mode.cr || ly >= src.height - mode.cr))
    requires var s := src.Texel(lx, ly); d.Color() == Over(s.Color(), Mul8(s.a, mode.ga), was.Color())
    ensures PixelPainted(d, was, src, mode, lx, ly)
  {
    PlainCoverage(mode, src.Texel(lx, ly), lx, ly, src.width, src.height);
    hide Coverage, Over, Mul8;
  }

  // ---------------------------------------------------------------- whole blits

  /** A destination: `height` rows of `width` visible pixels, `stride` apart. */
  predicate DstShape(len: nat, width: nat, height: nat, stride: nat) {
    0 < stride && width <= stride && len == height * stride
  }

  /** `dst` shows `color` exactly in the pixels of `r`. */
  ghost predicate Filled(dst: seq<Pixel>, was: seq<Pixel>, stride: nat, r: Rect, color: Pixel)
    requires stride > 0 && |dst| == |was|
  {
    forall k :: 0 <= k < |dst| ==> dst[k] == if At(k, stride, r) then color else was[k]
  }

  method FillRow(dst: array<Pixel>, row: nat, n: nat, color: Pixel)
    requires row + n <= dst.Length
    modifies dst
    ensures forall k :: 0 <= k < dst.Length ==> dst[k] == if row <= k < row + n then color else old(dst[k])
  {
    for x := 0 to n
      invariant forall k :: 0 <= k < dst.Length ==> dst[k] == if row <= k < row + x then color else old(dst[k])
    {
      dst[row + x] := color;
    }
  }

  /** Fill: exactly the pixels of destination, scissor and rectangle get the colour. */
  method FillScissor(dst: array<Pixel>, dw: nat, dh: nat, stride: nat, scissor: Rect, r: Rect, color: Pixel)
    returns (ghost clip: Rect)
    requires DstShape(dst.Length, dw, dh, stride)
    modifies dst
    ensures forall px, py :: clip.Has(px, py) <==>
              0 <= px < dw && 0 <= py < dh && scissor.Has(px, py) && r.Has(px, py)
    ensures Filled(dst[..], old(dst[..]), stride, clip, color)
  {
    hide ClipRect;
    var c := ClipRect(dw, dh, scissor, r);
    if c.Nothing? {
      clip := NOTHING;
      return;
    }
    clip := c.r;
    ghost var was := dst[..];
    var row := c.r.y * stride + c.r.x;
    var y := 0;
    while y < c.r.h
      invariant 0 <= y <= c.r.h
      invariant row == (c.r.y + y) * stride + c.r.x
      invariant Filled(dst[..], was, stride, c.r.(h := y), color)
    {
      RowInBuffer(c.r.y + y, dh, stride, c.r.x + c.r.w);
      FillRow(dst, row, c.r.w, color);
      forall k | 0 <= k < dst.Length
        ensures dst[k] == if At(k, stride, c.r.(h := y + 1)) then color else was[k]
      {
        RowIsRun(k, stride, c.r.(h := y));
      }
      assert (c.r.y + y + 1) * stride == (c.r.y + y) * stride + stride;
      row := row + stride;
      y := y + 1;
    }
  }

  lemma RowOf(k: nat, height: nat, stride: nat)
    requires stride > 0 && k < height * stride
    ensures k / stride < height
  {
    DivModBack(k, stride);
    FactorOrder(k / stride, height, stride);
  }

  lemma IndexInRect(k: nat, height: nat, stride: nat)
    requires stride > 0 && k < height * stride
    ensures Rect(0, 0, stride, height).Has(k % stride, k / stride)
  {
    RowOf(k, height, stride);
  }

  /** `dst` shows the placed source in the pixels of `r`, where texel (X - dx, Y - dy) lands on (X, Y). */
  ghost predicate Painted(dst: seq<Pixel>, was: seq<Pixel>, stride: nat, r: Rect, src: Src, mode: Mode, dx: int, dy: int)
    requires stride > 0 && |dst| == |was| && src.Valid()
    requires r.Empty() || r.Inside(Rect(dx, dy, src.width, src.height))
  {
    forall k :: 0 <= k < |dst| ==>
      if At(k, stride, r) then PixelPainted(dst[k], was[k], src, mode, k % stride - dx, k / stride - dy)
      else dst[k] == was[k]
  }

  /** The scissored blit in all four flavours: exactly the pixels of destination, scissor and placed
      source are painted, each once, from its own texel. */
  method BlitScissor(isa: Isa, dst: array<Pixel>, dw: nat, dh: nat, stride: nat, scissor: Rect,
                     dx: int, dy: int, src: Src, mode: Mode)
    returns (ghost clip: Rect)
    requires DstShape(dst.Length, dw, dh, stride) && src.Valid()
    requires src.width <= 16384 && src.height <= 16384
    requires (mode.CopyRounded? || mode.AlphaRounded?) ==> mode.cr <= 64
    modifies dst
    ensures forall px, py :: clip.Has(px, py) <==>
              0 <= px < dw && 0 <= py < dh && scissor.Has(px, py) && Rect(dx, dy, src.width, src.height).Has(px, py)
    ensures clip.Empty() || clip.Inside(Rect(dx, dy, src.width, src.height))
    ensures Painted(dst[..], old(dst[..]), stride, clip, src, mode, dx, dy)
  {
    hide PixelPainted, ClipRect, Painted, RowPainted;
    var c := ClipRect(dw, dh, scissor, Rect(dx, dy, src.width, src.height));
    ghost var was := dst[..];
    if c.Nothing? {
      clip := NOTHING;
      NothingPainted(was, stride, NOTHING, src, mode, dx, dy);
      return;
    }
    clip := c.r;
    NothingPainted(was, stride, c.r.(h := 0), src, mode, dx, dy);
    var drow := c.r.y * stride + c.r.x;
    var y := 0;
    while y < c.r.h
      invariant 0 <= y <= c.r.h
      invariant drow == (c.r.y + y) * stride + c.r.x
      invariant Painted(dst[..], was, stride, c.r.(h := y), src, mode, dx, dy)
    {
      RowInBuffer(c.r.y + y, dh, stride, c.r.x + c.r.w);
      ghost var before := dst[..];
      PaintRow(isa, dst, drow, src, mode, c.sx, c.sy + y, c.r.w);
      OneMoreRow(dst[..], before, was, stride, c.r.(h := y), src, mode, dx, dy, drow, c.sx, c.sy + y);
      assert (c.r.y + y + 1) * stride == (c.r.y + y) * stride + stride;
      drow := drow + stride;
      y := y + 1;
    }
    assert c.r.(h := y) == c.r;
  }

  lemma NothingPainted(was: seq<Pixel>, stride: nat, r: Rect, src: Src, mode: Mode, dx: int, dy: int)
    requires stride > 0 && src.Valid() && r.Empty()
    ensures Painted(was, was, stride, r, src, mode, dx, dy)
  {
    hide PixelPainted;
  }

  /** Painting one more row paints one more row of the rectangle. */
  lemma OneMoreRow(dst: seq<Pixel>, before: seq<Pixel>, was: seq<Pixel>, stride: nat, r: Rect, src: Src, mode: Mode,
                   dx: int, dy: int, drow: nat, sx: nat, sy: nat)
    requires stride > 0 && src.Valid() && |dst| == |before| == |was|
    requires 0 <= r.x && 0 < r.w && r.x + r.w <= stride && 0 <= r.y && 0 <= r.h
    requires r.(h := r.h + 1).Inside(Rect(dx, dy, src.width, src.height)) && sx == r.x - dx && sy == r.y + r.h - dy
    requires drow == (r.y + r.h) * stride + r.x && sx + r.w <= src.width && sy < src.height
    requires Painted(before, was, stride, r, src, mode, dx, dy)
    requires RowPainted(dst, before, drow, src, mode, sx, sy, r.w)
    ensures Painted(dst, was, stride, r.(h := r.h + 1), src, mode, dx, dy)
  {
    hide PixelPainted, RowPainted, Painted, PaintedAt;
    var r' := r.(h := r.h + 1);
    forall k: nat | k < |dst|
      ensures PaintedAt(dst, was, stride, r', src, mode, dx, dy, k)
    {
      OneMorePixel(dst, before, was, stride, r, src, mode, dx, dy, drow, sx, sy, k);
    }
    AllPainted(dst, was, stride, r', src, mode, dx, dy);
  }

  /** Position `k` is painted or untouched, as the rectangle says. */
  ghost predicate PaintedAt(dst: seq<Pixel>, was: seq<Pixel>, stride: nat, r: Rect, src: Src, mode: Mode, dx: int, dy: int, k: nat)
    requires stride > 0 && |dst| == |was| && src.Valid() && k < |dst|
    requires r.Empty() || r.Inside(Rect(dx, dy, src.width, src.height))
  {
    if At(k, stride, r) then PixelPainted(dst[k], was[k], src, mode, k % stride - dx, k / stride - dy) else dst[k] == was[k]
  }

  lemma AllPainted(dst: seq<Pixel>, was: seq<Pixel>, stride: nat, r: Rect, src: Src, mode: Mode, dx: int, dy: int)
    requires stride > 0 && |dst| == |was| && src.Valid()
    requires r.Empty() || r.Inside(Rect(dx, dy, src.width, src.height))
    ensures Painted(dst, was, stride, r, src, mode, dx, dy)
         <==> forall k: nat :: k < |dst| ==> PaintedAt(dst, was, stride, r, src, mode, dx, dy, k)
  {
    hide PixelPainted;
    if forall k: nat :: k < |dst| ==> PaintedAt(dst, was, stride, r, src, mode, dx, dy, k) {
      forall k | 0 <= k < |dst|
        ensures if At(k, stride, r) then PixelPainted(dst[k], was[k], src, mode, k % stride - dx, k / stride - dy) else dst[k] == was[k]
      {
        assert PaintedAt(dst, was, stride, r, src, mode, dx, dy, k);
      }
    }
  }

  lemma OneMorePixel(dst: seq<Pixel>, before: seq<Pixel>, was: seq<Pixel>, stride: nat, r: Rect, src: Src, mode: Mode,
                     dx: int, dy: int, drow: nat, sx: nat, sy: nat, k: nat)
    requires stride > 0 && src.Valid() && |dst| == |before| == |was| && k < |dst|
    requires 0 <= r.x && 0 < r.w && r.x + r.w <= stride && 0 <= r.y && 0 <= r.h
    requires r.(h := r.h + 1).Inside(Rect(dx, dy, src.width, src.height)) && sx == r.x - dx && sy == r.y + r.h - dy
    requires drow == (r.y + r.h) * stride + r.x && sx + r.w <= src.width && sy < src.height
    requires Painted(before, was, stride, r, src, mode, dx, dy)
    requires RowPainted(dst, before, drow, src, mode, sx, sy, r.w)
    ensures PaintedAt(dst, was, stride, r.(h := r.h + 1), src, mode, dx, dy, k)
  {
    AllPainted(before, was, stride, r, src, mode, dx, dy);
    hide PixelPainted, RowPainted, Painted;
    assert PaintedAt(before, was, stride, r, src, mode, dx, dy, k);
    RowIsRun(k, stride, r);
    if drow <= k < drow + r.w {
      InNewRow(dst, before, k, stride, r, src, mode, dx, dy, drow, sx, sy);
    } else {
      OutsideNewRow(dst, before, k, src, mode, drow, sx, sy, r.w);
    }
  }

  lemma InNewRow(dst: seq<Pixel>, before: seq<Pixel>, k: nat, stride: nat, r: Rect, src: Src, mode: Mode,
                 dx: int, dy: int, drow: nat, sx: nat, sy: nat)
    requires stride > 0 && src.Valid() && |dst| == |before| && k < |dst| && drow <= k < drow + r.w
    requires 0 <= r.x && 0 < r.w && r.x + r.w <= stride && 0 <= r.y && 0 <= r.h
    requires drow == (r.y + r.h) * stride + r.x && sx == r.x - dx && sy == r.y + r.h - dy
    requires sx + r.w <= src.width && sy < src.height && RowPainted(dst, before, drow, src, mode, sx, sy, r.w)
    ensures !At(k, stride, r) && sx + (k - drow) == k % stride - dx && sy == k / stride - dy
    ensures PixelPainted(dst[k], before[k], src, mode, k % stride - dx, k / stride - dy)
  {
    hide PixelPainted;
    RowIsRun(k, stride, r);
  }

  lemma OutsideNewRow(dst: seq<Pixel>, before: seq<Pixel>, k: nat, src: Src, mode: Mode, drow: nat, sx: nat, sy: nat, n: nat)
    requires src.Valid() && |dst| == |before| && k < |dst| && !(drow <= k < drow + n)
    requires sx + n <= src.width && sy < src.height && RowPainted(dst, before, drow, src, mode, sx, sy, n)
    ensures dst[k] == before[k]
  {
    hide PixelPainted;
  }
}
