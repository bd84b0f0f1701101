/** The surface and compositor objects of the kernel, proved against the state machine of
`CompositorSpec` (src/compositor/surface.c, src/compositor/compositor.c).
*/
module CompositorObjects {
  import opened Options
  import opened Rects
  import opened DamageList
  import opened Pixels
  import opened Blit
  import opened DepthOrder
  import opened Scene
  import opened Division
  import opened Compose
  import opened CompositorSpec

  const Z_CURSOR_LAYER := 0x7fff_ffff
  const Z_USER_MAX := Z_CURSOR_LAYER - 1
  const MAX_CORNER: nat := 64

  // ---------------------------------------------------------------- surfaces

  class Surface {
    var geom: Geom
    var pixels: seq<Pixel>
    var dirty: bool
    var part: Option<Rect>
    var prev: Option<Geom>
    ghost var shown: Shown

    ghost function Value(): Surf
      reads this
    {
      Surf(View(geom, pixels), dirty, part, prev, shown)
    }

    constructor (w: nat, h: nat)
      requires 0 < w <= 16384 && 0 < h <= 16384
      ensures Value() == Created(w, h)
    {
      geom := Geom(0, 0, w, h, 0, 255, true, false, 0);
      pixels := seq(h * w, _ => Pixel(0, 0, 0, 0));
      dirty, part, prev := true, None, None;
      shown := NOTHING_SHOWN;
    }

    /** Null for a size the kernel refuses. */
    static method Create(w: nat, h: nat) returns (s: Surface?)
      ensures s == null <==> w == 0 || h == 0 || w > 16384 || h > 16384
      ensures s != null ==> fresh(s) && s.Value() == Created(w, h)
    {
      if w == 0 || h == 0 || w > 16384 || h > 16384 {
        return null;
      }
      s := new Surface(w, h);
    }

    method Clear(argb: Pixel)
      modifies this
      ensures Value() == CompositorSpec.MarkDirty(Rewrite(old(Value()), pixels))
      ensures |pixels| == |old(pixels)| && forall k :: 0 <= k < |pixels| ==> pixels[k] == argb
    {
      pixels := seq(|pixels|, _ => argb);
      dirty, part := true, None;
    }

    method MoveTo(x: int, y: int)
      modifies this
      ensures Value() == var o := old(Value()); o.(view := o.view.(geom := o.view.geom.(x := x, y := y)))
    {
      geom := geom.(x := x, y := y);
    }

    /** User surfaces stay below the cursor layer. */
    method SetZ(z: int)
      modifies this
      ensures geom.z <= Z_USER_MAX && (z <= Z_USER_MAX ==> geom.z == z)
      ensures Value() == var o := old(Value()); o.(view := o.view.(geom := o.view.geom.(z := Min(z, Z_USER_MAX))))
    {
      geom := geom.(z := if z > Z_USER_MAX then Z_USER_MAX else z);
    }

    /** The largest radius up to the one asked for, and up to 64, with which opposite arcs do not overlap. */
    method SetCornerRadius(r: nat)
      modifies this
      ensures 2 * geom.radius <= geom.w && 2 * geom.radius <= geom.h && geom.radius <= MAX_CORNER && geom.radius <= r
      ensures geom.radius == r || geom.radius == MAX_CORNER || 2 * (geom.radius + 1) > geom.w || 2 * (geom.radius + 1) > geom.h
      ensures Value() == var o := old(Value()); o.(view := o.view.(geom := o.view.geom.(radius := geom.radius)))
    {
      var cap := (if geom.w < geom.h then geom.w else geom.h) / 2;
      var c := if r > cap then cap else r;
      c := if c > MAX_CORNER then MAX_CORNER else c;
      if geom.radius != c {
        geom := geom.(radius := c);
      }
    }

    /** Take the snapshot of a composed frame and clear the marks. */
    method Settle(ghost dmg: seq<Rect>)
      modifies this
      ensures Value() == Snapshot(old(Value()), dmg)
    {
      prev := Some(geom);
      shown := Reshown(dmg, View(geom, pixels), shown);
      dirty := false;
      part := None;
    }

    method MarkDirty()
      modifies this
      ensures Value() == CompositorSpec.MarkDirty(old(Value()))
    {
      dirty, part := true, None;
    }

    /** Half-open local box [lx0, lx1) x [ly0, ly1): clamped to the surface, joined with an earlier part. */
    method MarkDirtyRect(lx0: int, ly0: int, lx1: int, ly1: int)
      requires part.Some? ==> !part.value.Empty()
      modifies this
      ensures Value() == CompositorSpec.MarkDirtyRect(old(Value()), Rect(lx0, ly0, lx1 - lx0, ly1 - ly0))
    {
      hide Union;
      hide Intersect;
      if lx1 <= lx0 || ly1 <= ly0 {
        return;
      }
      var x0 := if lx0 < 0 then 0 else lx0;
      var y0 := if ly0 < 0 then 0 else ly0;
      var x1 := if lx1 > geom.w then geom.w else lx1;
      var y1 := if ly1 > geom.h then geom.h else ly1;
      ClampIsIntersection(lx0, ly0, lx1, ly1, geom.w, geom.h, x0, y0, x1, y1);
      if x1 <= x0 || y1 <= y0 {
        return;
      }
      dirty := true;
      if part.None? {
        part := Some(Rect(x0, y0, x1 - x0, y1 - y0));
        return;
      }
      var p := part.value;
      var dx0 := if x0 < p.x then x0 else p.x;
      var dy0 := if y0 < p.y then y0 else p.y;
      var dx1 := if x1 > p.x + p.w then x1 else p.x + p.w;
      var dy1 := if y1 > p.y + p.h then y1 else p.y + p.h;
      JoinIsUnion(p, Rect(x0, y0, x1 - x0, y1 - y0), dx0, dy0, dx1, dy1);
      part := Some(Rect(dx0, dy0, dx1 - dx0, dy1 - dy0));
    }
  }

  lemma ClampIsIntersection(lx0: int, ly0: int, lx1: int, ly1: int, w: nat, h: nat, x0: int, y0: int, x1: int, y1: int)
    requires x0 == Max(lx0, 0) && y0 == Max(ly0, 0) && x1 == Min(lx1, w) && y1 == Min(ly1, h)
    ensures Intersect(Rect(lx0, ly0, lx1 - lx0, ly1 - ly0), Rect(0, 0, w, h)) ==
            if x1 <= x0 || y1 <= y0 then NOTHING else Rect(x0, y0, x1 - x0, y1 - y0)
  {
  }

  lemma JoinIsUnion(a: Rect, b: Rect, x0: int, y0: int, x1: int, y1: int)
    requires !a.Empty() && !b.Empty()
    requires x0 == Min(a.x, b.x) && y0 == Min(a.y, b.y) && x1 == Max(a.x + a.w, b.x + b.w) && y1 == Max(a.y + a.h, b.y + b.h)
    ensures Union(a, b) == Rect(x0, y0, x1 - x0, y1 - y0)
  {
  }

  // ---------------------------------------------------------------- depth order of the slots

  function ViewFn(vs: seq<View>): nat -> Option<View> {
    (i: nat) => if i < |vs| then Some(vs[i]) else None
  }

  function Depths(vs: seq<View>): (zs: seq<int>)
    ensures |zs| == |vs| && forall i :: 0 <= i < |vs| ==> zs[i] == vs[i].geom.z
  {
    seq(|vs|, i requires 0 <= i < |vs| => vs[i].geom.z)
  }

  lemma {:induction false} PickAll(vs: seq<View>, s: seq<Keyed<nat>>)
    requires forall i :: 0 <= i < |s| ==> s[i].item < |vs|
    ensures var p := Pick(s, ViewFn(vs));
            |p| == |s| && forall i :: 0 <= i < |s| ==> p[i] == Keyed(s[i].z, vs[s[i].item])
  {
    if s != [] {
      PickAll(vs, s[..|s| - 1]);
      assert ViewFn(vs)(s[|s| - 1].item) == Some(vs[s[|s| - 1].item]);
    }
  }

  /** Painting in sorted slot order is the reference composite. */
  lemma SortedSlotsPaintComposite(vs: seq<View>, order: seq<nat>, sorted: seq<View>, bg: Rgb, px: int, py: int)
    requires order == Items(SortZ(Indexed(Depths(vs)))) && StableOrder(Depths(vs), order)
    requires |sorted| == |vs| && forall i :: 0 <= i < |vs| ==> sorted[i] == vs[order[i]]
    ensures PaintAt(sorted, bg, px, py) == Composite(vs, bg, px, py)
  {
    hide InkAt;
    hide PaintAt;
    var ix := Indexed(Depths(vs));
    PickAll(vs, ix);
    assert Pick(ix, ViewFn(vs)) == WithDepth(vs);
    assert forall i :: 0 <= i < |SortZ(ix)| ==> SortZ(ix)[i].item == order[i];
    PickAll(vs, SortZ(ix));
    SortCommutesWithPick(ix, ViewFn(vs));
    assert Items(SortZ(WithDepth(vs))) == sorted;
  }

  /** A surface strictly above every other user surface is followed only by the cursor layer. */
  lemma TopmostIsPaintedLast(zs: seq<int>, order: seq<nat>, i: nat, j: nat)
    requires StableOrder(zs, order) && i < j < |zs|
    requires forall k :: 0 <= k < |zs| && k != order[i] && zs[k] < Z_CURSOR_LAYER ==> zs[k] < zs[order[i]]
    ensures zs[order[j]] >= Z_CURSOR_LAYER
  {
    assert Before(Keyed(zs[order[i]], order[i]), Keyed(zs[order[j]], order[j]));
  }

  function AtDepth(s: Surf, z: int): Surf {
    s.(view := s.view.(geom := s.view.geom.(z := z)))
  }

  // ---------------------------------------------------------------- the compositor

  /** Colour of a screen position in a buffer with rows `hs` apart. */
  function ColorAt(hw: seq<Pixel>, hs: nat, px: int, py: int): Rgb {
    var k := py * hs + px;
    if 0 <= k < |hw| then hw[k].Color() else BLACK
  }

  /** Equal states, with the scanouts compared pixel by pixel. */
  ghost predicate Matches(a: State, b: State) {
    && a.width == b.width && a.height == b.height
    && a.slots == b.slots && a.carry == b.carry && a.full == b.full && a.shownBg == b.shownBg
    && forall px, py :: a.Screen().Has(px, py) ==> a.front(px, py) == b.front(px, py)
  }

  lemma MatchesKeepsSync(a: State, b: State, bg: Rgb)
    requires Matches(a, b)
    ensures InSync(b) ==> InSync(a)
    ensures ShowsComposite(b, bg) ==> ShowsComposite(a, bg)
  {
    hide Composite, ShownComposite, InPlace, WellFormed, Covered;
    assert forall px, py :: a.Screen().Has(px, py) ==> b.Screen().Has(px, py);
    assert forall px, py :: Pending(a, px, py) == Pending(b, px, py);
    MatchesKeepsForm(a, b);
  }

  lemma MatchesKeepsForm(a: State, b: State)
    requires Matches(a, b)
    ensures WellFormed(b) ==> WellFormed(a)
  {}

  lemma AddAllSnoc(rs: seq<Rect>, r: Rect)
    ensures AddAll(rs + [r]) == Added(AddAll(rs), r)
  {
    assert (rs + [r])[..|rs|] == rs;
  }

  /** Phase 1 for one surface. */
  method AddDamageOf(dmg: Damage, s: Surface, ghost added: seq<Rect>)
    requires dmg.Valid() && dmg.List() == AddAll(added)
    modifies dmg, dmg.rects
    ensures dmg.Valid() && dmg.List() == AddAll(added + DamageOf(s.Value()))
  {
    hide Added;
    hide AddAll;
    var g := s.geom;
    var changed := s.prev.None? || s.dirty || g != s.prev.value;
    assert changed == Changed(s.Value());
    if !changed {
      assert added + [] == added;
      return;
    }
    var currContrib := g.visible && g.alpha > 0;
    var prevContrib := s.prev.Some? && s.prev.value.visible && s.prev.value.alpha > 0;
    if s.dirty && s.part.Some? && s.prev.Some? && g == s.prev.value {
      assert GeomMatchesPrev(s.Value());
      var l := s.part.value;
      if currContrib {
        AddAllSnoc(added, Rect(g.x + l.x, g.y + l.y, l.w, l.h));
        dmg.Add(Rect(g.x + l.x, g.y + l.y, l.w, l.h));
      } else {
        assert added + [] == added;
      }
      return;
    }
    ghost var mid := added;
    if prevContrib {
      AddAllSnoc(mid, s.prev.value.Bounds());
      dmg.Add(s.prev.value.Bounds());
      mid := mid + [s.prev.value.Bounds()];
    }
    if currContrib {
      AddAllSnoc(mid, g.Bounds());
      dmg.Add(g.Bounds());
      mid := mid + [g.Bounds()];
    }
    assert mid == added + DamageOf(s.Value());
  }

  /** The views in stable depth order. */
  method InDepthOrder(vs: seq<View>) returns (sorted: seq<View>)
    ensures |sorted| == |vs| && forall i :: 0 <= i < |sorted| ==> sorted[i] in vs
    ensures forall bg, px, py :: PaintAt(sorted, bg, px, py) == Composite(vs, bg, px, py)
  {
    hide PaintAt, Composite, SortZ, Indexed, Items;
    var idx := SortIndices(Depths(vs));
    ghost var order := idx[..];
    sorted := [];
    for i := 0 to |vs|
      invariant |sorted| == i && forall j :: 0 <= j < i ==> sorted[j] == vs[order[j]]
      invariant idx[..] == order
    {
      sorted := sorted + [vs[idx[i]]];
    }
    forall bg, px, py ensures PaintAt(sorted, bg, px, py) == Composite(vs, bg, px, py) {
      SortedSlotsPaintComposite(vs, order, sorted, bg, px, py);
    }
  }

  /** The clipped damage of a frame: disjoint, on the screen, and empty exactly when nothing happens. */
  lemma RepaintedIs(st: State)
    ensures Repainted(st) == Clipped(AddAll(FrameDamage(st)), st.Screen()) && Disjoint(Repainted(st))
    ensures Repainted(st) != [] ==> st.width > 0
  {
    AddAllIsDisjoint(FrameDamage(st));
    ClippedIsDisjoint(AddAll(FrameDamage(st)), st.Screen());
    hide AddAll, FrameDamage, Clipped;
    if Repainted(st) != [] {
      assert Repainted(st)[0].Inside(st.Screen()) && !Repainted(st)[0].Empty();
    }
  }

  lemma BusyFrame(st: State, bg: Rgb)
    requires Repainted(st) != []
    ensures var n := CompositorSpec.Frame(st, bg);
            && n.width == st.width && n.height == st.height && n.slots == SnapshotAll(st.slots, Repainted(st))
            && n.carry == [] && !n.full && n.shownBg == bg
            && forall px, py :: n.front(px, py)
                 == if Covered(Repainted(st), px, py) then Composite(Views(st.slots), bg, px, py) else st.front(px, py)
  {
    hide Repainted, Composite;
    forall px, py
      ensures CompositorSpec.Frame(st, bg).front(px, py)
           == if Covered(Repainted(st), px, py) then Composite(Views(st.slots), bg, px, py) else st.front(px, py)
    {
      FrameFront(st, bg, px, py);
    }
  }

  lemma IdleFrame(st: State, bg: Rgb)
    requires Repainted(st) == []
    ensures CompositorSpec.Frame(st, bg) == st.(carry := [], full := false, shownBg := bg)
  {
    hide Repainted;
  }

  class Compositor {
    var slots: seq<Surface>
    const carry: Damage
    var full: bool
    const width: nat
    const height: nat
    const back: array<Pixel>
    const hw: array<Pixel>
    const hwStride: nat
    ghost var shownBg: Rgb

    ghost predicate Valid()
      reads this, carry, carry.rects, slots
    {
      && carry.Valid() && back != hw
      && back.Length == height * width && hw.Length == height * hwStride && 0 < hwStride && width <= hwStride
      && |slots| <= MAX_SURFACES
      && (forall i, j :: 0 <= i < j < |slots| ==> slots[i] != slots[j])
      && (forall i :: 0 <= i < |slots| ==> slots[i].Value().Valid())
    }

    ghost function Values(): (vs: seq<Surf>)
      reads this, slots
      ensures |vs| == |slots| && forall i :: 0 <= i < |slots| ==> vs[i] == slots[i].Value()
    {
      seq(|slots|, i requires 0 <= i < |slots| reads this, slots => slots[i].Value())
    }

    /** The abstract state this object represents. */
    ghost function Model(): State
      requires Valid()
      reads this, carry, carry.rects, slots, hw
    {
      var h, hs := hw[..], hwStride;
      State(width, height, Values(), carry.List(), full, (px, py) => ColorAt(h, hs, px, py), shownBg)
    }

    /** compositor_init over a display whose scanout rows are `hwStride` words apart. */
    constructor (width: nat, height: nat, back: array<Pixel>, hw: array<Pixel>, hwStride: nat)
      requires back != hw && back.Length == height * width && hw.Length == height * hwStride
      requires 0 < hwStride && width <= hwStride
      ensures Valid() && fresh(carry) && fresh(carry.rects) && this.back == back && this.hw == hw
      ensures Initial(Model()) && Restart(Model())
    {
      this.width, this.height, this.back, this.hw, this.hwStride := width, height, back, hw, hwStride;
      slots := [];
      carry := new Damage();
      full := true;
      new;
      InitialIsRestart(Model());
    }

    /** Duplicates are ignored; -1 when the table is full. */
    method Add(s: Surface) returns (code: int)
      requires Valid() && s.Value().Valid()
      modifies this, s`shown
      ensures Valid()
      ensures s in old(slots) ==> code == 0 && slots == old(slots) && s.shown == old(s.shown)
      ensures s !in old(slots) && |old(slots)| < MAX_SURFACES ==> code == 0 && slots == old(slots) + [s]
      ensures s !in old(slots) && |old(slots)| >= MAX_SURFACES ==> code == -1 && slots == old(slots)
      ensures s !in old(slots) ==> Matches(Model(), Register(old(Model()), old(s.Value())))
    {
      ghost var was := Values();
      for i := 0 to |slots|
        invariant s !in slots[..i]
      {
        if slots[i] == s {
          return 0;
        }
      }
      if |slots| >= MAX_SURFACES {
        return -1;
      }
      s.shown := NOTHING_SHOWN;
      slots := slots + [s];
      assert Values() == was + [old(s.Value()).(shown := NOTHING_SHOWN)];
      return 0;
    }

    method Remove(s: Surface)
      requires Valid()
      modifies this, carry, carry.rects
      ensures Valid()
      ensures s !in old(slots) ==> Matches(Model(), old(Model()))
      ensures forall i :: 0 <= i < |old(slots)| && old(slots)[i] == s ==>
                slots == old(slots)[..i] + old(slots)[i + 1..] && Matches(Model(), Unregister(old(Model()), i))
    {
      hide Unregister;
      for i := 0 to |slots|
        invariant s !in slots[..i]
      {
        if slots[i] == s {
          RemoveAt(i);
          return;
        }
      }
    }

    /** Carry what the surface showed to the next frame, then close the gap. */
    method RemoveAt(i: nat)
      requires Valid() && i < |slots|
      modifies this, carry, carry.rects
      ensures Valid() && slots == old(slots)[..i] + old(slots)[i + 1..]
      ensures Matches(Model(), Unregister(old(Model()), i))
    {
      hide Added;
      ghost var was := Values();
      if slots[i].prev.Some? {
        carry.Add(slots[i].prev.value.Bounds());
      }
      slots := slots[..i] + slots[i + 1..];
      assert Values() == was[..i] + was[i + 1..];
    }

    /** The highest depth in use below the cursor layer; 0 when there is none. */
    method TopUserDepth() returns (top: int)
      ensures forall i :: 0 <= i < |slots| && slots[i].geom.z < Z_CURSOR_LAYER ==> slots[i].geom.z <= top
      ensures if exists i :: 0 <= i < |slots| && slots[i].geom.z < Z_CURSOR_LAYER
              then exists i :: 0 <= i < |slots| && slots[i].geom.z == top < Z_CURSOR_LAYER else top == 0
    {
      top := 0;
      var have := false;
      for i := 0 to |slots|
        invariant forall k :: 0 <= k < i && slots[k].geom.z < Z_CURSOR_LAYER ==> have && slots[k].geom.z <= top
        invariant if have then exists k :: 0 <= k < i && slots[k].geom.z == top < Z_CURSOR_LAYER else top == 0
      {
        var z := slots[i].geom.z;
        if z < Z_CURSOR_LAYER && (!have || z > top) {
          top, have := z, true;
        }
      }
    }

    method BottomUserDepth() returns (bottom: int)
      ensures forall i :: 0 <= i < |slots| && slots[i].geom.z < Z_CURSOR_LAYER ==> bottom <= slots[i].geom.z
      ensures if exists i :: 0 <= i < |slots| && slots[i].geom.z < Z_CURSOR_LAYER
              then exists i :: 0 <= i < |slots| && slots[i].geom.z == bottom < Z_CURSOR_LAYER else bottom == 0
    {
      bottom := 0;
      var have := false;
      for i := 0 to |slots|
        invariant forall k :: 0 <= k < i && slots[k].geom.z < Z_CURSOR_LAYER ==> have && bottom <= slots[k].geom.z
        invariant if have then exists k :: 0 <= k < i && slots[k].geom.z == bottom < Z_CURSOR_LAYER else bottom == 0
      {
        var z := slots[i].geom.z;
        if z < Z_CURSOR_LAYER && (!have || z < bottom) {
          bottom, have := z, true;
        }
      }
    }

    /** Strictly above every other user surface, unless one of those is already at the ceiling. */
    method Raise(s: Surface)
      modifies s
      ensures s.Value() == if old(s.geom.z) >= Z_CURSOR_LAYER then old(s.Value()) else AtDepth(old(s.Value()), s.geom.z)
      ensures old(s.geom.z) < Z_CURSOR_LAYER ==> s.geom.z < Z_CURSOR_LAYER
      ensures old(s.geom.z) < Z_CURSOR_LAYER ==> (Above(s) <==> NoneAtCeiling(s))
    {
      if s.geom.z >= Z_CURSOR_LAYER {
        return;
      }
      var top := TopUserDepth();
      s.geom := s.geom.(z := if top + 1 > Z_USER_MAX then Z_USER_MAX else top + 1);
    }

    /** Strictly below every other user surface. */
    method Lower(s: Surface)
      modifies s
      ensures s.Value() == if old(s.geom.z) >= Z_CURSOR_LAYER then old(s.Value()) else AtDepth(old(s.Value()), s.geom.z)
      ensures old(s.geom.z) < Z_CURSOR_LAYER ==> s.geom.z < Z_CURSOR_LAYER
      ensures old(s.geom.z) < Z_CURSOR_LAYER ==>
                forall i :: 0 <= i < |slots| && slots[i] != s ==> s.geom.z < slots[i].geom.z
    {
      if s.geom.z >= Z_CURSOR_LAYER {
        return;
      }
      var bottom := BottomUserDepth();
      s.geom := s.geom.(z := bottom - 1);
    }

    /** Every other user surface is strictly lower. */
    ghost predicate Above(s: Surface)
      reads this, slots, s
    {
      forall i :: 0 <= i < |slots| && slots[i] != s && slots[i].geom.z < Z_CURSOR_LAYER ==> slots[i].geom.z < s.geom.z
    }

    ghost predicate NoneAtCeiling(s: Surface)
      reads this, slots
    {
      forall i :: 0 <= i < |slots| && slots[i] != s && slots[i].geom.z < Z_CURSOR_LAYER ==> slots[i].geom.z != Z_USER_MAX
    }

    method RequestFull()
      requires Valid()
      modifies this
      ensures Valid() && Matches(Model(), old(Model()).(full := true))
    {
      full := true;
    }

    method AddCarried(dmg: Damage, ghost added: seq<Rect>)
      requires carry.Valid() && dmg.Valid() && dmg != carry && dmg.rects != carry.rects && dmg.List() == AddAll(added)
      modifies dmg, dmg.rects
      ensures dmg.Valid() && dmg.List() == AddAll(added + carry.List())
    {
      hide AddAll;
      hide Added;
      ghost var rs, now := carry.List(), added;
      var i := 0;
      while i < carry.count
        invariant 0 <= i <= carry.count && carry.List() == rs
        invariant dmg.Valid() && dmg.List() == AddAll(now) && now == added + rs[..i]
      {
        AddAllSnoc(now, carry.rects[i]);
        dmg.Add(carry.rects[i]);
        now := now + [carry.rects[i]];
        i := i + 1;
      }
      assert rs[..i] == rs;
    }

    method AddSlots(dmg: Damage, ghost added: seq<Rect>)
      requires dmg.Valid() && dmg.List() == AddAll(added)
      modifies dmg, dmg.rects
      ensures dmg.Valid() && dmg.List() == AddAll(added + SlotDamage(Values()))
    {
      hide AddAll;
      hide DamageOf;
      ghost var vs, now := Values(), added;
      var i := 0;
      assert vs[..0] == [];
      while i < |slots|
        invariant 0 <= i <= |slots|
        invariant dmg.Valid() && dmg.List() == AddAll(now) && now == added + SlotDamage(vs[..i])
      {
        AddDamageOf(dmg, slots[i], now);
        assert vs[..i + 1][..i] == vs[..i] && vs[i] == slots[i].Value();
        now := now + DamageOf(slots[i].Value());
        i := i + 1;
      }
      assert vs[..i] == vs;
    }

    /** Phase 1: everything `FrameDamage` lists, in its order. */
    method Accumulate(dmg: Damage)
      requires Valid() && dmg.Valid() && dmg.List() == [] && dmg != carry && dmg.rects != carry.rects
      modifies this, carry, dmg, dmg.rects
      ensures Valid() && slots == old(slots) && shownBg == old(shownBg) && Values() == old(Values())
      ensures !full && carry.List() == []
      ensures dmg.Valid() && dmg.List() == AddAll(FrameDamage(old(Model())))
    {
      hide AddAll;
      hide Added;
      hide SlotDamage;
      ghost var st := Model();
      ghost var head: seq<Rect> := [];
      EmptyAddAll();
      if full {
        AddAllSnoc([], Rect(0, 0, width, height));
        dmg.Add(Rect(0, 0, width, height));
        head := [Rect(0, 0, width, height)];
        assert [] + head == head;
        full := false;
      }
      AddCarried(dmg, head);
      carry.Reset();
      assert Values() == st.slots;
      AddSlots(dmg, head + st.carry);
      assert FrameDamage(st) == head + st.carry + SlotDamage(st.slots);
    }

    /** Phase 4: snapshot every slot and clear its marks. */
    method TakeSnapshots(ghost dmg: seq<Rect>)
      requires Valid()
      modifies slots
      ensures Valid() && Values() == SnapshotAll(old(Values()), dmg)
    {
      hide Snapshot;
      ghost var was := Values();
      var i := 0;
      while i < |slots|
        invariant 0 <= i <= |slots|
        invariant forall j :: 0 <= j < i ==> slots[j].Value() == Snapshot(was[j], dmg)
        invariant forall j :: i <= j < |slots| ==> slots[j].Value() == was[j]
      {
        slots[i].Settle(dmg);
        i := i + 1;
      }
      forall j | 0 <= j < |slots|
        ensures slots[j].Value().Valid()
      {
        SnapshotIsValid(was[j], dmg);
      }
    }

    /** Phase 2: the slots' views in stable depth order. */
    method DepthSorted() returns (sorted: seq<View>)
      requires Valid()
      ensures |sorted| == |slots| && forall i :: 0 <= i < |sorted| ==> sorted[i].Valid()
      ensures forall bg, px, py :: PaintAt(sorted, bg, px, py) == Composite(Views(Values()), bg, px, py)
    {
      hide PaintAt, Composite;
      var vs := [];
      for i := 0 to |slots|
        invariant |vs| == i && forall j :: 0 <= j < i ==> vs[j] == slots[j].Value().view
      {
        vs := vs + [View(slots[i].geom, slots[i].pixels)];
      }
      assert vs == Views(Values());
      sorted := InDepthOrder(vs);
    }

    /** Compose the damage into the back buffer, then publish the same damage. */
    method Paint(isa: Isa, bg: Pixel, cpus: nat, dmg: Damage, sorted: seq<View>)
      requires Valid() && 0 < width && dmg.Valid() && Disjoint(dmg.List())
      requires forall i :: 0 <= i < |sorted| ==> sorted[i].Valid()
      modifies back, hw
      ensures forall px, py :: 0 <= px < width && 0 <= py < height ==>
                ColorAt(hw[..], hwStride, px, py) ==
                if Covered(dmg.List(), px, py) then PaintAt(sorted, bg.Color(), px, py)
                else ColorAt(old(hw[..]), hwStride, px, py)
    {
      hide PaintAt, Covered, ColorAt, Composed, Published;
      ghost var rs, hwWas, backWas := dmg.List(), hw[..], back[..];
      ParallelCompose(isa, back, width, height, dmg, sorted, bg, cpus);
      PresentDamage(back, hw, width, height, hwStride, dmg);
      forall px, py | 0 <= px < width && 0 <= py < height
        ensures ColorAt(hw[..], hwStride, px, py) ==
                if Covered(rs, px, py) then PaintAt(sorted, bg.Color(), px, py) else ColorAt(hwWas, hwStride, px, py)
      {
        PublishedShowsComposite(hw[..], hwWas, back[..], backWas, width, height, hwStride, rs, sorted, bg.Color(), px, py);
      }
    }

    /** Phases 2 to 4 for a non-empty damage list. */
    method Repaint(isa: Isa, bg: Pixel, cpus: nat, dmg: Damage, ghost st: State)
      requires Valid() && 0 < width && dmg.Valid() && dmg.count > 0 && Disjoint(dmg.List())
      requires dmg.List() == Repainted(st) && Matches(Model(), st.(carry := [], full := false, shownBg := bg.Color()))
      modifies slots, back, hw
      ensures Valid()
      ensures Matches(Model(), CompositorSpec.Frame(st, bg.Color()))
    {
      hide Composite, PaintAt, Repainted, ColorAt, Covered, CompositorSpec.Frame, Disjoint, Snapshot;
      BusyFrame(st, bg.Color());
      var sorted := DepthSorted();
      Paint(isa, bg, cpus, dmg, sorted);
      TakeSnapshots(dmg.List());
    }

    /** Phase 1: accumulate, then clip to the screen; the requests are reset. */
    method CollectDamage(bg: Pixel) returns (dmg: Damage)
      requires Valid()
      modifies this, carry
      ensures Valid() && slots == old(slots) && fresh(dmg) && fresh(dmg.rects) && dmg.Valid()
      ensures dmg.List() == Repainted(old(Model())) && dmg.count == |Repainted(old(Model()))|
      ensures Matches(Model(), old(Model()).(carry := [], full := false, shownBg := bg.Color()))
    {
      hide AddAll, FrameDamage, Clipped, ColorAt;
      dmg := new Damage();
      Accumulate(dmg);
      dmg.Clip(Rect(0, 0, width, height));
      shownBg := bg.Color();
    }

    /** One call follows the state machine, on any instruction set and number of processors. */
    method FrameStep(isa: Isa, bg: Pixel, cpus: nat)
      requires Valid()
      modifies this, carry, slots, back, hw
      ensures Valid() && slots == old(slots)
      ensures Matches(Model(), CompositorSpec.Frame(old(Model()), bg.Color()))
    {
      hide *;
      ghost var st := Model();
      var dmg := CollectDamage(bg);
      RepaintedIs(st);
      if dmg.count > 0 {
        SameWidth(st.(carry := [], full := false, shownBg := bg.Color()));
        Repaint(isa, bg, cpus, dmg, st);
      } else {
        IdleFrame(st, bg.Color());
      }
    }

    lemma SameWidth(st: State)
      requires Valid() && Matches(Model(), st)
      ensures width == st.width
    {}

    /** compositor_frame: from an in-sync state the scanout shows the from-scratch composite, and the
        state is in sync again. */
    method Frame(isa: Isa, bg: Pixel, cpus: nat)
      requires Valid()
      modifies this, carry, slots, back, hw
      ensures Valid() && slots == old(slots)
      ensures Matches(Model(), CompositorSpec.Frame(old(Model()), bg.Color()))
      ensures old(InSync(Model()) && FrameOk(Model(), bg.Color())) ==> InSync(Model())
      ensures old(InSync(Model()) && FrameOk(Model(), bg.Color()) && AllTold(Model())) ==> ShowsComposite(Model(), bg.Color())
    {
      hide *;
      ghost var st := Model();
      FrameStep(isa, bg, cpus);
      if InSync(st) && FrameOk(st, bg.Color()) {
        FrameShowsComposite(st, bg.Color());
        MatchesKeepsSync(Model(), CompositorSpec.Frame(st, bg.Color()), bg.Color());
      }
    }
  }

  /** Composing the back buffer and publishing the same damage puts the composite on the scanout. */
  lemma PublishedShowsComposite(hw: seq<Pixel>, hwWas: seq<Pixel>, back: seq<Pixel>, backWas: seq<Pixel>,
                                dw: nat, dh: nat, hs: nat, dmg: seq<Rect>, vs: seq<View>, bg: Rgb, px: int, py: int)
    requires 0 < dw <= hs && |back| == |backWas| == dh * dw && |hw| == |hwWas| == dh * hs
    requires Composed(back, backWas, dw, dmg, vs, bg) && Published(hw, hwWas, back, dw, dh, hs, dmg)
    requires 0 <= px < dw && 0 <= py < dh
    ensures ColorAt(hw, hs, px, py) == if Covered(dmg, px, py) then PaintAt(vs, bg, px, py) else ColorAt(hwWas, hs, px, py)
  {
    hide PaintAt;
    DivMod(py, px, hs);
    DivMod(py, px, dw);
    RowInBuffer(py, dh, hs, px + 1);
    RowInBuffer(py, dh, dw, px + 1);
    var k, j := py * hs + px, py * dw + px;
    assert hw[k] == if Covered(dmg, px, py) then back[j] else hwWas[k];
  }
}
