/** Stable depth order (the insertion sort of src/compositor/compositor.c:127-139). */
module DepthOrder {
  import opened Options

  /** An item with its depth. */
  datatype Keyed<+T> = Keyed(z: int, item: T)

  /** Insert after every element that is not deeper in front; the C loop shifts the larger ones up. */
  function InsertZ<T>(s: seq<Keyed<T>>, x: Keyed<T>): (r: seq<Keyed<T>>)
    ensures |r| == |s| + 1
  {
    if s == [] || s[|s| - 1].z <= x.z then s + [x]
    else InsertZ(s[..|s| - 1], x) + [s[|s| - 1]]
  }

  function SortZ<T>(s: seq<Keyed<T>>): (r: seq<Keyed<T>>)
    ensures |r| == |s|
  {
    if s == [] then [] else InsertZ(SortZ(s[..|s| - 1]), s[|s| - 1])
  }

  ghost predicate Ascending<T>(s: seq<Keyed<T>>) {
    forall i, j :: 0 <= i < j < |s| ==> s[i].z <= s[j].z
  }

  /** Keep the items that `f` maps to something, with their depths. */
  function Pick<T, U>(s: seq<Keyed<T>>, f: T -> Option<U>): seq<Keyed<U>> {
    if s == [] then []
    else
      var last := s[|s| - 1];
      var rest := Pick(s[..|s| - 1], f);
      match f(last.item)
      case None => rest
      case Some(u) => rest + [Keyed(last.z, u)]
  }

  lemma {:induction false} InsertBelow<T>(s: seq<Keyed<T>>, x: Keyed<T>, m: int)
    requires x.z <= m && forall i :: 0 <= i < |s| ==> s[i].z <= m
    ensures forall i :: 0 <= i < |InsertZ(s, x)| ==> InsertZ(s, x)[i].z <= m
  {
    if s != [] && s[|s| - 1].z > x.z {
      InsertBelow(s[..|s| - 1], x, m);
    }
  }

  lemma {:induction false} InsertKeepsAscending<T>(s: seq<Keyed<T>>, x: Keyed<T>)
    requires Ascending(s)
    ensures Ascending(InsertZ(s, x))
  {
    if s != [] && s[|s| - 1].z > x.z {
      InsertKeepsAscending(s[..|s| - 1], x);
      InsertBelow(s[..|s| - 1], x, s[|s| - 1].z);
    }
  }

  lemma {:induction false} SortIsAscending<T>(s: seq<Keyed<T>>)
    ensures Ascending(SortZ(s))
  {
    if s != [] {
      SortIsAscending(s[..|s| - 1]);
      InsertKeepsAscending(SortZ(s[..|s| - 1]), s[|s| - 1]);
    }
  }

  lemma {:induction false} PickBelow<T, U>(s: seq<Keyed<T>>, f: T -> Option<U>, m: int)
    requires forall i :: 0 <= i < |s| ==> s[i].z <= m
    ensures forall i :: 0 <= i < |Pick(s, f)| ==> Pick(s, f)[i].z <= m
  {
    if s != [] {
      PickBelow(s[..|s| - 1], f, m);
    }
  }

  lemma PickSnoc<T, U>(s: seq<Keyed<T>>, x: Keyed<T>, f: T -> Option<U>)
    ensures Pick(s + [x], f) == match f(x.item) case None => Pick(s, f) case Some(u) => Pick(s, f) + [Keyed(x.z, u)]
  {
    assert (s + [x])[..|s|] == s;
  }

  lemma {:induction false} PickInsert<T, U>(s: seq<Keyed<T>>, x: Keyed<T>, f: T -> Option<U>)
    requires Ascending(s)
    ensures Pick(InsertZ(s, x), f) ==
            match f(x.item) case None => Pick(s, f) case Some(u) => InsertZ(Pick(s, f), Keyed(x.z, u))
  {
    if s == [] || s[|s| - 1].z <= x.z {
      PickSnoc(s, x, f);
      PickBelow(s, f, x.z);
    } else {
      var n := |s| - 1;
      var rest, last := s[..n], s[n];
      PickInsert(rest, x, f);
      PickSnoc(InsertZ(rest, x), last, f);
      PickSnoc(rest, last, f);
      assert s == rest + [last];
      if f(x.item).Some? && f(last.item).Some? {
        var y := Keyed(x.z, f(x.item).value);
        var l := Keyed(last.z, f(last.item).value);
        assert (Pick(rest, f) + [l])[..|Pick(rest, f)|] == Pick(rest, f);
        assert InsertZ(Pick(rest, f) + [l], y) == InsertZ(Pick(rest, f), y) + [l];
      }
    }
  }

  /** Sorting and then dropping items is dropping and then sorting: hidden items cannot disturb the
      relative order of the others. */
  lemma {:induction false} SortCommutesWithPick<T, U>(s: seq<Keyed<T>>, f: T -> Option<U>)
    ensures Pick(SortZ(s), f) == SortZ(Pick(s, f))
  {
    if s != [] {
      var n := |s| - 1;
      SortCommutesWithPick(s[..n], f);
      SortIsAscending(s[..n]);
      PickInsert(SortZ(s[..n]), s[n], f);
      assert s == s[..n] + [s[n]];
      PickSnoc(s[..n], s[n], f);
      if f(s[n].item).Some? {
        var p := Pick(s[..n], f);
        var y := Keyed(s[n].z, f(s[n].item).value);
        assert (p + [y])[..|p|] == p;
      }
    }
  }

  // ---------------------------------------------------------------- slot indices

  /** Slot numbers with their depths. */
  function Indexed(zs: seq<int>): (s: seq<Keyed<nat>>)
    ensures |s| == |zs|
  {
    seq(|zs|, i requires 0 <= i < |zs| => Keyed(zs[i], i))
  }

  /** Depth first, slot number second. */
  predicate Before(a: Keyed<nat>, b: Keyed<nat>) {
    a.z < b.z || (a.z == b.z && a.item < b.item)
  }

  /** The order a painter must use: every slot once, by depth, equal depths by slot number. */
  ghost predicate StableOrder(zs: seq<int>, order: seq<nat>) {
    && |order| == |zs|
    && (forall i :: 0 <= i < |order| ==> order[i] < |zs|)
    && (forall i, j :: 0 <= i < j < |order| ==> Before(Keyed(zs[order[i]], order[i]), Keyed(zs[order[j]], order[j])))
  }

  ghost predicate SlotsBelow(zs: seq<int>, s: seq<Keyed<nat>>, n: nat)
    requires n <= |zs|
  {
    forall i :: 0 <= i < |s| ==> s[i].item < n && s[i].z == zs[s[i].item]
  }

  ghost predicate Increasing(s: seq<Keyed<nat>>) {
    forall i, j :: 0 <= i < j < |s| ==> Before(s[i], s[j])
  }

  lemma {:induction false} InsertBefore(s: seq<Keyed<nat>>, x: Keyed<nat>, y: Keyed<nat>)
    requires Before(x, y) && forall i :: 0 <= i < |s| ==> Before(s[i], y)
    ensures forall i :: 0 <= i < |InsertZ(s, x)| ==> Before(InsertZ(s, x)[i], y)
  {
    if s != [] && s[|s| - 1].z > x.z {
      InsertBefore(s[..|s| - 1], x, y);
    }
  }

  lemma {:induction false} InsertSlot(zs: seq<int>, s: seq<Keyed<nat>>, n: nat)
    requires n < |zs| && SlotsBelow(zs, s, n) && Increasing(s)
    ensures SlotsBelow(zs, InsertZ(s, Keyed(zs[n], n)), n + 1) && Increasing(InsertZ(s, Keyed(zs[n], n)))
  {
    var x := Keyed(zs[n], n);
    if s != [] && s[|s| - 1].z > x.z {
      InsertSlot(zs, s[..|s| - 1], n);
      InsertBefore(s[..|s| - 1], x, s[|s| - 1]);
    } else {
      forall i | 0 <= i < |s| ensures Before(s[i], x) {
        assert i < |s| - 1 ==> Before(s[i], s[|s| - 1]);
      }
    }
  }

  lemma {:induction false} SortedSlots(zs: seq<int>, n: nat)
    requires n <= |zs|
    ensures SlotsBelow(zs, SortZ(Indexed(zs)[..n]), n) && Increasing(SortZ(Indexed(zs)[..n]))
  {
    if n > 0 {
      SortedSlots(zs, n - 1);
      assert Indexed(zs)[..n][..n - 1] == Indexed(zs)[..n - 1];
      InsertSlot(zs, SortZ(Indexed(zs)[..n - 1]), n - 1);
    }
  }

  function Items<T>(s: seq<Keyed<T>>): (r: seq<T>)
    ensures |r| == |s| && forall i :: 0 <= i < |s| ==> r[i] == s[i].item
  {
    seq(|s|, i requires 0 <= i < |s| => s[i].item)
  }

  /** The insertion sort yields the stable order. */
  lemma SortIsStable(zs: seq<int>)
    ensures StableOrder(zs, Items(SortZ(Indexed(zs))))
  {
    SortedSlots(zs, |zs|);
    assert Indexed(zs)[..|zs|] == Indexed(zs);
  }

  /** `sort_indices`: the slot numbers in stable depth order. */
  method SortIndices(zs: seq<int>) returns (idx: array<nat>)
    ensures fresh(idx) && idx[..] == Items(SortZ(Indexed(zs)))
    ensures StableOrder(zs, idx[..])
  {
    var n := |zs|;
    idx := new nat[n](i => i);
    ghost var all := Indexed(zs);
    SortedSlots(zs, 0);
    var i := 0;
    while i < n
      invariant 0 <= i <= n
      invariant idx[..i] == Items(SortZ(all[..i]))
      invariant forall k :: i <= k < n ==> idx[k] == k
    {
      SortedSlots(zs, i);
      assert all[..i + 1][..i] == all[..i];
      InsertLast(zs, idx, i, SortZ(all[..i]));
      i := i + 1;
    }
    assert all[..n] == all && idx[..n] == idx[..];
    SortIsStable(zs);
  }

  /** The inner loop: shift the slots in front up by one and drop the key in the gap. */
  method InsertLast(zs: seq<int>, idx: array<nat>, i: nat, ghost s: seq<Keyed<nat>>)
    requires i < idx.Length == |zs| && idx[i] == i
    requires |s| == i && SlotsBelow(zs, s, i) && forall k :: 0 <= k < i ==> idx[k] == s[k].item
    modifies idx
    ensures forall k :: 0 <= k <= i ==> idx[k] == InsertZ(s, Keyed(zs[i], i))[k].item
    ensures forall k :: i < k < idx.Length ==> idx[k] == old(idx[k])
  {
    hide InsertZ;
    ghost var x := Keyed(zs[i], i);
    var key := idx[i];
    var j := i;
    while j > 0 && zs[idx[j - 1]] > zs[key]
      invariant 0 <= j <= i
      invariant forall k :: 0 <= k < j ==> idx[k] == s[k].item
      invariant forall k :: j < k <= i ==> idx[k] == s[k - 1].item
      invariant forall k :: i < k < idx.Length ==> idx[k] == old(idx[k])
      invariant forall k :: j <= k < i ==> s[k].z > x.z
    {
      idx[j] := idx[j - 1];
      j := j - 1;
    }
    idx[j] := key;
    InsertGap(s, x, j);
  }

  lemma {:induction false} InsertGap<T>(s: seq<Keyed<T>>, x: Keyed<T>, j: nat)
    requires j <= |s| && (j == 0 || s[j - 1].z <= x.z) && forall k :: j <= k < |s| ==> s[k].z > x.z
    ensures InsertZ(s, x) == s[..j] + [x] + s[j..]
  {
    if j < |s| {
      var n := |s| - 1;
      var t := s[..n];
      InsertGap(t, x, j);
      assert t[..j] == s[..j] && s[j..] == t[j..] + [s[n]];
      calc {
        InsertZ(s, x);
        InsertZ(t, x) + [s[n]];
        t[..j] + [x] + t[j..] + [s[n]];
        s[..j] + [x] + (t[j..] + [s[n]]);
        s[..j] + [x] + s[j..];
      }
    } else {
      assert s[..j] == s && s[j..] == [];
    }
  }
}

/** What the screen should show: every surface laid over the background in stable depth order.

This is the reference the incremental compositor is held to; it knows nothing of damage, bands,
scissors, SIMD or snapshots.
*/
module Scene {
  import opened Options
  import opened Rects
  import opened Pixels
  import opened Roots
  import opened Blit
  import opened DepthOrder

  /** Placement and appearance of a surface (src/compositor/surface.h:39-59). */
  datatype Geom = Geom(x: int, y: int, w: nat, h: nat, z: int, alpha: Byte, visible: bool, solid: bool, radius: nat) {
    function Bounds(): Rect {
      Rect(x, y, w, h)
    }

    predicate Contributes() {
      visible && alpha > 0
    }

    function Mode(): Mode {
      if radius != 0 then (if solid then CopyRounded(radius) else AlphaRounded(alpha, radius))
      else if solid then Copy
      else Alpha(alpha)
    }
  }

  /** A surface as the compositor draws it. */
  datatype View = View(geom: Geom, pixels: seq<Pixel>) {
    predicate Valid() {
      && |pixels| == geom.h * geom.w
      && 0 < geom.w <= 16384 && 0 < geom.h <= 16384 && geom.radius <= 64
    }

    function Source(): (s: Src)
      ensures Valid() ==> s.Valid()
    {
      Src(pixels, geom.w, geom.h, geom.w)
    }
  }

  /** What one surface puts on one pixel. */
  datatype Ink = Ink(color: Rgb, cover: Byte)

  function InkAt(v: View, px: int, py: int): Option<Ink> {
    if v.Valid() && v.geom.Contributes() && v.geom.Bounds().Has(px, py) then
      var lx, ly := px - v.geom.x, py - v.geom.y;
      var s := v.Source().Texel(lx, ly);
      Some(Ink(s.Color(), Coverage(v.geom.Mode(), s, lx, ly, v.geom.w, v.geom.h)))
    else None
  }

  function Lay(ink: Option<Ink>, under: Rgb): Rgb {
    match ink
    case None => under
    case Some(i) => Over(i.color, i.cover, under)
  }

  // ---------------------------------------------------------------- what a surface does to a pixel

  /** The texel of a surface that falls on screen pixel (px, py). */
  function TexelOn(v: View, px: int, py: int): Pixel
    requires v.Valid() && v.geom.Bounds().Has(px, py)
  {
    RowInBuffer(py - v.geom.y, v.geom.h, v.geom.w, px - v.geom.x + 1);
    v.pixels[(py - v.geom.y) * v.geom.w + (px - v.geom.x)]
  }

  lemma TexelIsOne(v: View, px: int, py: int)
    requires v.Valid() && v.geom.Bounds().Has(px, py)
    ensures TexelOn(v, px, py) in v.pixels
  {
    RowInBuffer(py - v.geom.y, v.geom.h, v.geom.w, px - v.geom.x + 1);
    ItsElement(v.pixels, (py - v.geom.y) * v.geom.w + (px - v.geom.x));
  }

  lemma ItsElement(s: seq<Pixel>, k: nat)
    requires k < |s|
    ensures s[k] in s
  {}

  /** Coverage of that pixel by the surface's rounded outline; 255 for a square one. */
  function OutlineOn(v: View, px: int, py: int): Byte {
    if v.geom.radius == 0 then 255 else CornerMask(px - v.geom.x, py - v.geom.y, v.geom.w, v.geom.h, v.geom.radius)
  }

  /**
   * `now` is what a surface must leave on a pixel it covers that showed `under`. An opaque surface replaces the
   * colour, whatever its texel's and its own alpha; elsewhere the texel is mixed in with the product of the
   * texel's alpha and the surface's. The outline scales either weight.
   */
  ghost predicate Leaves(v: View, px: int, py: int, under: Rgb, now: Rgb)
    requires v.Valid() && v.geom.Bounds().Has(px, py)
  {
    var s, m := TexelOn(v, px, py), OutlineOn(v, px, py);
    if v.geom.solid then
      && (m == 255 ==> now == s.Color()) && (m == 0 ==> now == under)
      && MixedRgb(now, s.Color(), under, 65025 * m)
    else
      && (s.a == 0 || m == 0 ==> now == under)
      && (s.a == 255 && v.geom.alpha == 255 && m == 255 ==> now == s.Color())
      && MixedRgb(now, s.Color(), under, s.a * v.geom.alpha * m)
  }

  /** The ink of a surface: its texel, with the weight that its fields ask for. */
  lemma InkMeans(v: View, px: int, py: int)
    requires v.Valid() && v.geom.Contributes() && v.geom.Bounds().Has(px, py)
    ensures var s, m := TexelOn(v, px, py), OutlineOn(v, px, py);
            && InkAt(v, px, py).Some? && InkAt(v, px, py).value.color == s.Color()
            && var c := InkAt(v, px, py).value.cover;
               if v.geom.solid then c == m
               else
                 && -65025 < 65025 * c - s.a * v.geom.alpha * m < 65025
                 && (s.a == 0 || m == 0 ==> c == 0) && (s.a == 255 && v.geom.alpha == 255 && m == 255 ==> c == 255)
  {
    hide CornerMask, Mul8;
    var s, m := TexelOn(v, px, py), OutlineOn(v, px, py);
    TwoProductsError(s.a, v.geom.alpha, m);
    Mul8Ends(Mul8(s.a, v.geom.alpha));
  }

  /** Laying the ink of a surface on a pixel leaves what the surface's fields ask for, in all four flavours. */
  lemma LaidMeans(v: View, px: int, py: int, under: Rgb)
    requires v.Valid() && v.geom.Contributes() && v.geom.Bounds().Has(px, py)
    ensures Leaves(v, px, py, under, Lay(InkAt(v, px, py), under))
  {
    InkMeans(v, px, py);
    hide InkAt, Over, OutlineOn, TexelOn, MixedRgb;
    var s, m, i := TexelOn(v, px, py), OutlineOn(v, px, py), InkAt(v, px, py).value;
    OverMixes(i.color, i.cover, under, if v.geom.solid then 65025 * m else s.a * v.geom.alpha * m);
  }

  /** A surface that is hidden, fully transparent or elsewhere leaves the pixel alone. */
  lemma NoInkLeaves(v: View, px: int, py: int, under: Rgb)
    requires !v.geom.visible || v.geom.alpha == 0 || !v.geom.Bounds().Has(px, py)
    ensures Lay(InkAt(v, px, py), under) == under
  {}

  /** Lay surfaces over the background in the given order, last on top. */
  function PaintAt(vs: seq<View>, bg: Rgb, px: int, py: int): Rgb {
    if vs == [] then bg else Lay(InkAt(vs[|vs| - 1], px, py), PaintAt(vs[..|vs| - 1], bg, px, py))
  }

  function WithDepth(vs: seq<View>): (s: seq<Keyed<View>>)
    ensures |s| == |vs|
  {
    seq(|vs|, i requires 0 <= i < |vs| => Keyed(vs[i].geom.z, vs[i]))
  }

  /** The from-scratch composite of the registered surfaces at one pixel. */
  function Composite(vs: seq<View>, bg: Rgb, px: int, py: int): Rgb {
    PaintAt(Items(SortZ(WithDepth(vs))), bg, px, py)
  }

  // ---------------------------------------------------------------- the composite depends on inks only

  function InkFn(px: int, py: int): View -> Option<Ink> {
    v => InkAt(v, px, py)
  }

  /** The inks on a pixel, in slot order, with their depths. */
  function Inks(vs: seq<View>, px: int, py: int): seq<Keyed<Ink>> {
    Pick(WithDepth(vs), InkFn(px, py))
  }

  function LayAll(s: seq<Keyed<Ink>>, bg: Rgb): Rgb {
    if s == [] then bg
    else
      var last := s[|s| - 1].item;
      Over(last.color, last.cover, LayAll(s[..|s| - 1], bg))
  }

  lemma {:induction false} PaintIsLayAll(s: seq<Keyed<View>>, bg: Rgb, px: int, py: int)
    ensures PaintAt(Items(s), bg, px, py) == LayAll(Pick(s, InkFn(px, py)), bg)
  {
    if s != [] {
      var n := |s| - 1;
      PaintIsLayAll(s[..n], bg, px, py);
      PaintTop(s, bg, px, py);
      hide *;
      assert s == s[..n] + [s[n]];
      PickSnoc(s[..n], s[n], InkFn(px, py));
      InkFnIs(s[n].item, px, py);
      LayTop(Pick(s[..n], InkFn(px, py)), s[n].z, InkAt(s[n].item, px, py), bg);
    }
  }

  lemma InkFnIs(v: View, px: int, py: int)
    ensures InkFn(px, py)(v) == InkAt(v, px, py)
  {
    hide InkAt;
  }

  lemma PaintTop(s: seq<Keyed<View>>, bg: Rgb, px: int, py: int)
    requires s != []
    ensures var n := |s| - 1;
            PaintAt(Items(s), bg, px, py) == Lay(InkAt(s[n].item, px, py), PaintAt(Items(s[..n]), bg, px, py))
  {
    hide InkAt, Lay;
    assert Items(s)[..|s| - 1] == Items(s[..|s| - 1]);
  }

  lemma LayTop(rest: seq<Keyed<Ink>>, z: int, ink: Option<Ink>, bg: Rgb)
    ensures LayAll(rest + (match ink case None => [] case Some(i) => [Keyed(z, i)]), bg) == Lay(ink, LayAll(rest, bg))
  {
    hide Over;
    if ink.Some? {
      assert (rest + [Keyed(z, ink.value)])[..|rest|] == rest;
    } else {
      assert rest + [] == rest;
    }
  }

  lemma CompositeFromInks(vs: seq<View>, bg: Rgb, px: int, py: int)
    ensures Composite(vs, bg, px, py) == LayAll(SortZ(Inks(vs, px, py)), bg)
  {
    PaintIsLayAll(SortZ(WithDepth(vs)), bg, px, py);
    SortCommutesWithPick(WithDepth(vs), InkFn(px, py));
  }

  lemma {:induction false} InksAppend(a: seq<View>, b: seq<View>, px: int, py: int)
    ensures Inks(a + b, px, py) == Inks(a, px, py) + Inks(b, px, py)
  {
    hide InkAt, InkFn, Pick;
    if b == [] {
      assert a + b == a;
      NoInks(px, py);
    } else {
      var n := |b| - 1;
      InksAppend(a, b[..n], px, py);
      assert WithDepth(b) == WithDepth(b[..n]) + [Keyed(b[n].geom.z, b[n])];
      assert WithDepth(a + b) == WithDepth(a + b[..n]) + [Keyed(b[n].geom.z, b[n])];
      PickSnoc(WithDepth(b[..n]), Keyed(b[n].geom.z, b[n]), InkFn(px, py));
      PickSnoc(WithDepth(a + b[..n]), Keyed(b[n].geom.z, b[n]), InkFn(px, py));
    }
  }

  lemma NoInks(px: int, py: int)
    ensures Inks([], px, py) == []
  {
    assert WithDepth([]) == [];
  }

  lemma InksOne(v: View, px: int, py: int)
    ensures Inks([v], px, py) == match InkAt(v, px, py) case None => [] case Some(i) => [Keyed(v.geom.z, i)]
  {
    InkFnIs(v, px, py);
    NoInks(px, py);
    hide InkAt, InkFn, Pick;
    assert WithDepth([]) == [];
    assert WithDepth([v]) == [] + [Keyed(v.geom.z, v)];
    PickSnoc([], Keyed(v.geom.z, v), InkFn(px, py));
  }

  // ---------------------------------------------------------------- the composite, from the top down

  lemma {:induction false} SortBelow<T>(s: seq<Keyed<T>>, m: int)
    requires forall i :: 0 <= i < |s| ==> s[i].z <= m
    ensures forall i :: 0 <= i < |SortZ(s)| ==> SortZ(s)[i].z <= m
  {
    if s != [] {
      SortBelow(s[..|s| - 1], m);
      InsertBelow(SortZ(s[..|s| - 1]), s[|s| - 1], m);
    }
  }

  /** What is not below anything before it, and above everything after it, is sorted last. */
  lemma {:induction false} TopSortsLast<T>(a: seq<Keyed<T>>, k: Keyed<T>, b: seq<Keyed<T>>)
    requires forall i :: 0 <= i < |a| ==> a[i].z <= k.z
    requires forall i :: 0 <= i < |b| ==> b[i].z < k.z
    ensures SortZ(a + [k] + b) == SortZ(a + b) + [k]
  {
    if b == [] {
      assert a + [k] + b == a + [k] && a + b == a && (a + [k])[..|a|] == a;
      SortBelow(a, k.z);
    } else {
      var n := |b| - 1;
      TopSortsLast(a, k, b[..n]);
      assert (a + [k] + b)[..|a| + 1 + n] == a + [k] + b[..n];
      assert (a + b)[..|a| + n] == a + b[..n];
      var rest := SortZ(a + b[..n]);
      assert (rest + [k])[..|rest|] == rest;
    }
  }

  lemma {:induction false} InkDepths(vs: seq<View>, px: int, py: int, m: int)
    requires forall i :: 0 <= i < |vs| && InkAt(vs[i], px, py).Some? ==> vs[i].geom.z <= m
    ensures forall i :: 0 <= i < |Inks(vs, px, py)| ==> Inks(vs, px, py)[i].z <= m
  {
    hide InkAt, InkFn, Pick;
    if vs == [] {
      NoInks(px, py);
    } else {
      var n := |vs| - 1;
      InkDepths(vs[..n], px, py, m);
      assert vs == vs[..n] + [vs[n]];
      InksAppend(vs[..n], [vs[n]], px, py);
      InksOne(vs[n], px, py);
      hide Inks;
    }
  }

  /** Surface `i` is on top at the pixel: every other one there is lower, or as high in an earlier slot. */
  predicate OnTop(vs: seq<View>, i: nat, px: int, py: int)
    requires i < |vs|
  {
    forall j :: 0 <= j < |vs| && j != i && InkAt(vs[j], px, py).Some? ==>
      vs[j].geom.z < vs[i].geom.z || (vs[j].geom.z == vs[i].geom.z && j < i)
  }

  function Maybe(z: int, ink: Option<Ink>): seq<Keyed<Ink>> {
    match ink
    case None => []
    case Some(i) => [Keyed(z, i)]
  }

  lemma InksAround(a: seq<View>, v: View, b: seq<View>, px: int, py: int)
    ensures Inks(a + [v] + b, px, py) == Inks(a, px, py) + Maybe(v.geom.z, InkAt(v, px, py)) + Inks(b, px, py)
    ensures Inks(a + b, px, py) == Inks(a, px, py) + Inks(b, px, py)
  {
    hide InkAt, Inks;
    InksAppend(a + [v], b, px, py);
    InksAppend(a, [v], px, py);
    InksAppend(a, b, px, py);
    InksOne(v, px, py);
  }

  lemma TopInkSortsLast(a: seq<Keyed<Ink>>, z: int, ink: Option<Ink>, b: seq<Keyed<Ink>>)
    requires forall i :: 0 <= i < |a| ==> a[i].z <= z
    requires forall i :: 0 <= i < |b| ==> b[i].z < z
    ensures SortZ(a + Maybe(z, ink) + b) == SortZ(a + b) + Maybe(z, ink)
  {
    hide SortZ;
    if ink.Some? {
      TopSortsLast(a, Keyed(z, ink.value), b);
    } else {
      assert a + [] + b == a + b;
    }
  }

  /** The composite is the topmost surface laid over the composite of all the others. */
  lemma TopmostIsLaidOverRest(vs: seq<View>, i: nat, bg: Rgb, px: int, py: int)
    requires i < |vs| && OnTop(vs, i, px, py)
    ensures Composite(vs, bg, px, py) == Lay(InkAt(vs[i], px, py), Composite(vs[..i] + vs[i + 1..], bg, px, py))
  {
    var a, v, b := vs[..i], vs[i], vs[i + 1..];
    assert vs == a + [v] + b;
    TopmostDepths(vs, i, px, py);
    hide *;
    InksAround(a, v, b, px, py);
    TopInkSortsLast(Inks(a, px, py), v.geom.z, InkAt(v, px, py), Inks(b, px, py));
    CompositeFromInks(vs, bg, px, py);
    CompositeFromInks(a + b, bg, px, py);
    LayMaybe(SortZ(Inks(a + b, px, py)), v.geom.z, InkAt(v, px, py), bg);
  }

  lemma TopmostDepths(vs: seq<View>, i: nat, px: int, py: int)
    requires i < |vs| && OnTop(vs, i, px, py)
    ensures var a, b := Inks(vs[..i], px, py), Inks(vs[i + 1..], px, py);
            (forall j :: 0 <= j < |a| ==> a[j].z <= vs[i].geom.z) && forall j :: 0 <= j < |b| ==> b[j].z < vs[i].geom.z
  {
    hide InkAt, Inks;
    InkDepths(vs[..i], px, py, vs[i].geom.z);
    InkDepths(vs[i + 1..], px, py, vs[i].geom.z - 1);
  }

  lemma LayMaybe(rest: seq<Keyed<Ink>>, z: int, ink: Option<Ink>, bg: Rgb)
    ensures LayAll(rest + Maybe(z, ink), bg) == Lay(ink, LayAll(rest, bg))
  {
    hide LayAll, Lay;
    LayTop(rest, z, ink, bg);
  }

  /** Without surfaces the background shows. */
  lemma EmptySceneShowsBackground(bg: Rgb, px: int, py: int)
    ensures Composite([], bg, px, py) == bg
  {
    assert WithDepth([]) == [];
    assert SortZ<View>([]) == [];
  }

  /** An opaque surface on top, away from its rounded corners, shows exactly its texel. */
  lemma TopmostOpaqueShows(vs: seq<View>, i: nat, bg: Rgb, px: int, py: int)
    requires i < |vs| && OnTop(vs, i, px, py) && vs[i].Valid() && vs[i].geom.Contributes() && vs[i].geom.Bounds().Has(px, py)
    requires vs[i].geom.solid && OutlineOn(vs[i], px, py) == 255
    ensures Composite(vs, bg, px, py) == TexelOn(vs[i], px, py).Color()
  {
    TopmostIsLaidOverRest(vs, i, bg, px, py);
    LaidMeans(vs[i], px, py, Composite(vs[..i] + vs[i + 1..], bg, px, py));
    hide InkAt, Composite, OutlineOn, TexelOn, OnTop;
  }
}
