/** The incremental compositor as a state machine, and the theorem that it always shows the composite
(src/compositor/compositor.c, src/compositor/surface.c).
*/
module CompositorSpec {
  import opened Options
  import opened Rects
  import opened DamageList
  import opened Pixels
  import opened DepthOrder
  import opened Scene
  import Division

  const MAX_SURFACES: nat := 64

  // ---------------------------------------------------------------- surfaces

  /** What was painted for a surface on a screen pixel: its ink and depth, if any. */
  type Shown = (int, int) -> Option<Keyed<Ink>>

  const NOTHING_SHOWN: Shown := (px: int, py: int) => None

  /** The ink of a view on a pixel, with its depth. */
  function KeyedInk(v: View, px: int, py: int): Option<Keyed<Ink>> {
    match InkAt(v, px, py)
    case None => None
    case Some(i) => Some(Keyed(v.geom.z, i))
  }

  /** A surface. `part` is the local dirty rectangle while `dirty_rect_valid` is set, `prev` the placement
      snapshot while `prev_known` is set. `shown` is a history variable: what is on each screen pixel on
      behalf of this registration. */
  datatype Surf = Surf(view: View, dirty: bool, part: Option<Rect>, prev: Option<Geom>, shown: Shown) {
    function Local(): Rect {
      Rect(0, 0, view.geom.w, view.geom.h)
    }

    predicate Valid() {
      && view.Valid()
      && (part.Some? ==> dirty && !part.value.Empty() && part.value.Inside(Local()))
      && (prev.Some? ==> prev.value.w == view.geom.w && prev.value.h == view.geom.h && prev.value.radius <= 64)
    }

    /** Local pixel (lx, ly) is inside the dirty mark. */
    predicate Marked(lx: int, ly: int) {
      dirty && (part.None? || part.value.Has(lx, ly))
    }

    /** The current pixels at the place of the snapshot. */
    function AtSnapshot(): View
      requires prev.Some?
    {
      View(prev.value, view.pixels)
    }

    /** What is on the pixel is not what belongs there now. */
    predicate Differs(px: int, py: int) {
      KeyedInk(view, px, py) != shown(px, py)
    }
  }

  /** A surface fresh from `surface_create`: zeroed pixels, fully dirty, never seen. */
  function Created(w: nat, h: nat): (s: Surf)
    requires 0 < w <= 16384 && 0 < h <= 16384
    ensures s.Valid()
  {
    Surf(View(Geom(0, 0, w, h, 0, 255, true, false, 0), seq(h * w, _ => Pixel(0, 0, 0, 0))), true, None, None, NOTHING_SHOWN)
  }

  function MarkDirty(s: Surf): Surf {
    s.(dirty := true, part := None)
  }

  function MarkDirtyRect(s: Surf, r: Rect): Surf {
    if r.Empty() then s
    else
      var c := Intersect(r, s.Local());
      if c.Empty() then s
      else if s.part.None? then s.(dirty := true, part := Some(c))
      else s.(dirty := true, part := Some(Union(s.part.value, c)))
  }

  /** Marking a rectangle keeps every pixel that was marked before exactly when no full mark is
      pending, or the rectangle covers the whole surface, or it misses the surface entirely. */
  lemma MarkRectKeepsMarksIff(s: Surf, r: Rect)
    requires s.Valid()
    ensures (forall lx, ly :: s.Local().Has(lx, ly) && s.Marked(lx, ly) ==> MarkDirtyRect(s, r).Marked(lx, ly))
            <==> !(s.dirty && s.part.None?) || Intersect(r, s.Local()).Empty() || s.Local().Inside(r)
  {
    var c := Intersect(r, s.Local());
    var t := MarkDirtyRect(s, r);
    if s.dirty && s.part.None? && !c.Empty() && !s.Local().Inside(r) {
      InsideOrMissing(s.Local(), r);
      var lx, ly :| s.Local().Has(lx, ly) && !r.Has(lx, ly);
      assert s.Marked(lx, ly) && !t.Marked(lx, ly);
    } else if s.dirty && s.part.None? && !c.Empty() {
      forall lx, ly | s.Local().Has(lx, ly) ensures t.Marked(lx, ly) {
        assert c.Has(lx, ly);
      }
    }
  }

  lemma InsideOrMissing(a: Rect, b: Rect)
    requires !a.Empty()
    ensures a.Inside(b) || exists px, py :: a.Has(px, py) && !b.Has(px, py)
  {
    if forall px, py :: a.Has(px, py) ==> b.Has(px, py) {
      InsideMeansContained(a, b);
    }
  }

  /** A full mark followed by a partial one forgets the rest of the surface. */
  lemma PartialMarkForgetsFullMark(s: Surf)
    requires s.Valid() && s.view.geom.w >= 2
    ensures MarkDirty(s).Marked(0, 0) && !MarkDirtyRect(MarkDirty(s), Rect(1, 0, 1, 1)).Marked(0, 0)
  {
    assert Intersect(Rect(1, 0, 1, 1), s.Local()) == Rect(1, 0, 1, 1);
  }

  // ---------------------------------------------------------------- damage of one surface

  /** Field by field, as the C code compares; the result is equality of the two placements. */
  predicate GeomMatchesPrev(s: Surf) {
    && s.prev.Some?
    && var g, p := s.view.geom, s.prev.value;
    && g.x == p.x && g.y == p.y
    && g.w == p.w && g.h == p.h
    && g.z == p.z
    && g.alpha == p.alpha && g.visible == p.visible
    && g.solid == p.solid
    && g.radius == p.radius
  }

  predicate Changed(s: Surf) {
    || s.prev.None?
    || s.dirty
    || (var g, p := s.view.geom, s.prev.value;
        || g.x != p.x || g.y != p.y || g.w != p.w || g.h != p.h || g.z != p.z
        || g.alpha != p.alpha || g.visible != p.visible || g.solid != p.solid || g.radius != p.radius)
  }

  /** The rectangles phase 1 adds for one surface, in order. */
  function DamageOf(s: Surf): seq<Rect> {
    var g := s.view.geom;
    if !Changed(s) then []
    else if s.dirty && s.part.Some? && GeomMatchesPrev(s) then
      var l := s.part.value;
      if g.Contributes() then [Rect(g.x + l.x, g.y + l.y, l.w, l.h)] else []
    else
      (if s.prev.Some? && s.prev.value.Contributes() then [s.prev.value.Bounds()] else [])
      + (if g.Contributes() then [g.Bounds()] else [])
  }

  /** What a caller can test: the snapshot is missing or different, or the mark covers the surface. */
  predicate WillRepaint(s: Surf) {
    s.prev != Some(s.view.geom) || (s.dirty && (s.part.None? || s.Local().Inside(s.part.value)))
  }

  /**
   * The first frame after a registration damages the whole surface exactly when its snapshot is missing
   * or differs from its placement, or a mark covers it entirely.
   */
  lemma FirstFrameDamagesAllIff(s: Surf)
    requires s.Valid() && s.view.geom.Contributes()
    ensures (forall px, py :: s.view.geom.Bounds().Has(px, py) ==> Covered(DamageOf(s), px, py)) <==> WillRepaint(s)
  {
    var g, d := s.view.geom, DamageOf(s);
    if WillRepaint(s) {
      forall px, py | g.Bounds().Has(px, py)
        ensures Covered(d, px, py)
      {
        assert s.Local().Has(px - g.x, py - g.y);
        assert d[|d| - 1].Has(px, py);
      }
    } else if d == [] {
      assert g.Bounds().Has(g.x, g.y) && !Covered(d, g.x, g.y);
    } else {
      assert GeomMatchesPrev(s);
      InsideOrMissing(s.Local(), s.part.value);
      var lx, ly :| s.Local().Has(lx, ly) && !s.part.value.Has(lx, ly);
      assert g.Bounds().Has(g.x + lx, g.y + ly) && !Covered(d, g.x + lx, g.y + ly);
    }
  }

  /** The damage of one surface, exactly: in place, its marked pixels; otherwise where it was and where it is. A
      surface that does not show damages nothing. */
  lemma DamageIsExactly(s: Surf, px: int, py: int)
    requires s.Valid()
    ensures var g := s.view.geom;
            Covered(DamageOf(s), px, py) <==>
            if s.prev == Some(g) then
              g.visible && g.alpha > 0 && g.Bounds().Has(px, py) && s.Marked(px - g.x, py - g.y)
            else
              || (g.visible && g.alpha > 0 && g.Bounds().Has(px, py))
              || (s.prev.Some? && s.prev.value.visible && s.prev.value.alpha > 0 && s.prev.value.Bounds().Has(px, py))
  {
    var d := DamageOf(s);
    assert GeomMatchesPrev(s) <==> s.prev == Some(s.view.geom);
    assert |d| <= 2;
    assert Covered(d, px, py) <==> (|d| > 0 && d[0].Has(px, py)) || (|d| > 1 && d[1].Has(px, py));
  }

  /** A partial mark on a clean surface marks exactly the pixels of the rectangle that the surface has. */
  lemma PartialMarkIsExact(s: Surf, r: Rect, lx: int, ly: int)
    requires s.Valid() && !s.dirty
    ensures MarkDirtyRect(s, r).Marked(lx, ly) <==> r.Has(lx, ly) && s.Local().Has(lx, ly)
  {
    assert Intersect(r, s.Local()).Has(lx, ly) <==> r.Has(lx, ly) && s.Local().Has(lx, ly);
  }

  /** A new surface is visible, square and fully transparent: it leaves every pixel as it is. Once it is written
      with opaque texels it shows exactly those. */
  lemma CreatedMeans(w: nat, h: nat, pixels: seq<Pixel>, px: int, py: int, under: Rgb)
    requires 0 < w <= 16384 && 0 < h <= 16384 && |pixels| == h * w && Rect(0, 0, w, h).Has(px, py)
    ensures var s := Created(w, h);
            var v := s.view.(pixels := pixels);
            && v.Valid() && v.geom.Bounds().Has(px, py)
            && Lay(InkAt(s.view, px, py), under) == under
            && (TexelOn(v, px, py).a == 255 ==> Lay(InkAt(v, px, py), under) == TexelOn(v, px, py).Color())
  {
    hide InkAt, TexelOn, Lay, OutlineOn;
    var s := Created(w, h);
    ZeroTexel(w, h, px, py);
    PlainTexel(s.view, px, py, under);
    PlainTexel(s.view.(pixels := pixels), px, py, under);
  }

  lemma ZeroTexel(w: nat, h: nat, px: int, py: int)
    requires 0 < w <= 16384 && 0 < h <= 16384 && Rect(0, 0, w, h).Has(px, py)
    ensures TexelOn(Created(w, h).view, px, py).a == 0
  {
    hide TexelOn;
    TexelIsOne(Created(w, h).view, px, py);
  }

  lemma PlainTexel(v: View, px: int, py: int, under: Rgb)
    requires v.Valid() && v.geom.Bounds().Has(px, py)
    requires v.geom.visible && v.geom.alpha == 255 && !v.geom.solid && v.geom.radius == 0
    ensures TexelOn(v, px, py).a == 0 ==> Lay(InkAt(v, px, py), under) == under
    ensures TexelOn(v, px, py).a == 255 ==> Lay(InkAt(v, px, py), under) == TexelOn(v, px, py).Color()
  {
    hide InkAt, TexelOn, Lay, MixedRgb;
    LaidMeans(v, px, py, under);
  }

  // ---------------------------------------------------------------- the whole state

  /** Registered surfaces in slot order, damage carried over from removals, the full-repaint request,
      and the colours on the scanout. `shownBg` is a history variable: the background last composed. */
  datatype State = State(width: nat, height: nat, slots: seq<Surf>, carry: seq<Rect>, full: bool,
                         front: (int, int) -> Rgb, shownBg: Rgb) {
    function Screen(): Rect {
      Rect(0, 0, width, height)
    }
  }

  function Views(slots: seq<Surf>): (vs: seq<View>)
    ensures |vs| == |slots| && forall i :: 0 <= i < |slots| ==> vs[i] == slots[i].view
  {
    seq(|slots|, i requires 0 <= i < |slots| => slots[i].view)
  }

  function Listed(k: Option<Keyed<Ink>>): seq<Keyed<Ink>> {
    if k.Some? then [k.value] else []
  }

  /** What was painted for the slots on one pixel, in slot order. */
  function ShownInks(slots: seq<Surf>, px: int, py: int): seq<Keyed<Ink>> {
    if slots == [] then [] else ShownInks(slots[..|slots| - 1], px, py) + Listed(slots[|slots| - 1].shown(px, py))
  }

  function CurrentInks(slots: seq<Surf>, px: int, py: int): seq<Keyed<Ink>> {
    if slots == [] then [] else CurrentInks(slots[..|slots| - 1], px, py) + Listed(KeyedInk(slots[|slots| - 1].view, px, py))
  }

  /** The colour that what was painted for the slots gives over the background. */
  function ShownComposite(slots: seq<Surf>, bg: Rgb, px: int, py: int): Rgb {
    LayAll(SortZ(ShownInks(slots, px, py)), bg)
  }

  lemma {:induction false} InksAreCurrent(slots: seq<Surf>, px: int, py: int)
    ensures Inks(Views(slots), px, py) == CurrentInks(slots, px, py)
  {
    hide InkAt, Inks;
    if slots == [] {
      NoInks(px, py);
      assert Views(slots) == [];
    } else {
      var n := |slots| - 1;
      InksAreCurrent(slots[..n], px, py);
      assert Views(slots) == Views(slots[..n]) + [slots[n].view];
      InksAppend(Views(slots[..n]), [slots[n].view], px, py);
      InksOne(slots[n].view, px, py);
    }
  }

  lemma {:induction false} UnchangedInks(slots: seq<Surf>, px: int, py: int)
    requires forall i :: 0 <= i < |slots| ==> !slots[i].Differs(px, py)
    ensures CurrentInks(slots, px, py) == ShownInks(slots, px, py)
  {
    hide KeyedInk;
    if slots != [] {
      UnchangedInks(slots[..|slots| - 1], px, py);
      assert !slots[|slots| - 1].Differs(px, py);
    }
  }

  /** Where nothing differs, what was painted is the composite of the surfaces as they are. */
  lemma UnchangedComposite(slots: seq<Surf>, bg: Rgb, px: int, py: int)
    requires forall i :: 0 <= i < |slots| ==> !slots[i].Differs(px, py)
    ensures ShownComposite(slots, bg, px, py) == Composite(Views(slots), bg, px, py)
  {
    UnchangedInks(slots, px, py);
    InksAreCurrent(slots, px, py);
    CompositeFromInks(Views(slots), bg, px, py);
    hide *;
    ShownIs(slots, bg, px, py);
  }

  lemma ShownIs(slots: seq<Surf>, bg: Rgb, px: int, py: int)
    ensures ShownComposite(slots, bg, px, py) == LayAll(SortZ(ShownInks(slots, px, py)), bg)
  {}

  lemma ShownStep(slots: seq<Surf>, px: int, py: int)
    requires slots != []
    ensures var n := |slots| - 1;
            ShownInks(slots, px, py) == ShownInks(slots[..n], px, py) + Listed(slots[n].shown(px, py))
  {}

  lemma Regroup<T>(a: seq<T>, b: seq<T>, c: seq<T>)
    ensures a + b + c == a + (b + c) && a + [] == a
  {}

  lemma NoneShown(px: int, py: int)
    ensures ShownInks([], px, py) == []
  {}

  lemma {:induction false} ShownAppend(a: seq<Surf>, b: seq<Surf>, px: int, py: int)
    ensures ShownInks(a + b, px, py) == ShownInks(a, px, py) + ShownInks(b, px, py)
  {
    hide ShownInks, Listed;
    if b == [] {
      assert a + b == a;
      NoneShown(px, py);
      Regroup(ShownInks(a, px, py), [], []);
    } else {
      var n := |b| - 1;
      ShownAppend(a, b[..n], px, py);
      assert (a + b)[..|a + b| - 1] == a + b[..n];
      ShownStep(b, px, py);
      ShownStep(a + b, px, py);
      Regroup(ShownInks(a, px, py), ShownInks(b[..n], px, py), Listed(b[n].shown(px, py)));
    }
  }

  /** Equal inks slot by slot. */
  lemma {:induction false} SameShown(a: seq<Surf>, b: seq<Surf>, px: int, py: int)
    requires |a| == |b| && forall i :: 0 <= i < |a| ==> a[i].shown(px, py) == b[i].shown(px, py)
    ensures ShownInks(a, px, py) == ShownInks(b, px, py)
  {
    if a != [] {
      SameShown(a[..|a| - 1], b[..|b| - 1], px, py);
    }
  }

  /** Everything phase 1 adds for the surfaces. */
  function SlotDamage(slots: seq<Surf>): seq<Rect> {
    if slots == [] then [] else SlotDamage(slots[..|slots| - 1]) + DamageOf(slots[|slots| - 1])
  }

  /** Everything phase 1 adds, in order: the whole screen on request, carried damage, the surfaces. */
  function FrameDamage(st: State): seq<Rect> {
    (if st.full then [st.Screen()] else []) + st.carry + SlotDamage(st.slots)
  }

  function AddAll(rs: seq<Rect>): seq<Rect> {
    if rs == [] then [] else Added(AddAll(rs[..|rs| - 1]), rs[|rs| - 1])
  }

  /** No addition of the sequence forgets a pixel. */
  predicate AllKept(rs: seq<Rect>) {
    rs == [] || (AllKept(rs[..|rs| - 1]) && Keeps(AddAll(rs[..|rs| - 1]), rs[|rs| - 1]))
  }

  /** The clipped damage of a frame. */
  function Repainted(st: State): seq<Rect> {
    Clipped(AddAll(FrameDamage(st)), st.Screen())
  }

  /** What is on the screen for a view once the pixels of `dmg` have been painted anew. */
  function Reshown(dmg: seq<Rect>, v: View, shown: Shown): Shown {
    (px, py) => if HasPixel(dmg, px, py) then KeyedInk(v, px, py) else shown(px, py)
  }

  function Snapshot(s: Surf, dmg: seq<Rect>): Surf {
    s.(prev := Some(s.view.geom), shown := Reshown(dmg, s.view, s.shown), dirty := false, part := None)
  }

  function SnapshotAll(slots: seq<Surf>, dmg: seq<Rect>): (r: seq<Surf>)
    ensures |r| == |slots| && forall i :: 0 <= i < |slots| ==> r[i] == Snapshot(slots[i], dmg)
  {
    seq(|slots|, i requires 0 <= i < |slots| => Snapshot(slots[i], dmg))
  }

  lemma SnapshotIsValid(s: Surf, dmg: seq<Rect>)
    requires s.Valid()
    ensures Snapshot(s, dmg).Valid()
  {
    hide Reshown;
  }

  lemma ReshownAt(dmg: seq<Rect>, v: View, shown: Shown, px: int, py: int)
    ensures Reshown(dmg, v, shown)(px, py) == if Covered(dmg, px, py) then KeyedInk(v, px, py) else shown(px, py)
  {
    hide KeyedInk, Covered;
    assert HasPixel(dmg, px, py) <==> Covered(dmg, px, py);
  }

  /** One call of compositor_frame: recompose and publish the damaged pixels only; when there are
      none, leave the snapshots and marks alone. */
  function Frame(st: State, bg: Rgb): State {
    var dmg := Repainted(st);
    var idle := st.(carry := [], full := false, shownBg := bg);
    if dmg == [] then idle
    else
      idle.(slots := SnapshotAll(st.slots, dmg), front := Repaint(dmg, Views(st.slots), bg, st.front))
  }

  lemma {:induction false} CleanSlotsNoDamage(slots: seq<Surf>)
    requires forall i :: 0 <= i < |slots| ==> slots[i].prev == Some(slots[i].view.geom) && !slots[i].dirty
    ensures SlotDamage(slots) == []
  {
    if slots != [] {
      CleanSlotsNoDamage(slots[..|slots| - 1]);
    }
  }

  /** After a frame that painted, another one finds nothing to do and changes nothing. */
  lemma NextFrameIsIdle(st: State, bg: Rgb)
    requires Repainted(st) != []
    ensures var next := Frame(st, bg);
            Repainted(next) == [] && Frame(next, bg) == next
  {
    var next := Frame(st, bg);
    hide Snapshot;
    forall i | 0 <= i < |next.slots|
      ensures next.slots[i].prev == Some(next.slots[i].view.geom) && !next.slots[i].dirty
    {
      SnapshotIsClean(st.slots[i], Repainted(st));
    }
    CleanSlotsNoDamage(next.slots);
    NothingToRepaint(next);
    hide Repainted, SnapshotAll;
  }

  lemma SnapshotIsClean(s: Surf, dmg: seq<Rect>)
    ensures Snapshot(s, dmg).prev == Some(s.view.geom) && !Snapshot(s, dmg).dirty && Snapshot(s, dmg).view == s.view
  {}

  lemma NothingToRepaint(st: State)
    requires !st.full && st.carry == [] && SlotDamage(st.slots) == []
    ensures Repainted(st) == []
  {
    assert FrameDamage(st) == [];
  }

  /** The scanout with the pixels of `dmg` painted anew. */
  function Repaint(dmg: seq<Rect>, vs: seq<View>, bg: Rgb, front: (int, int) -> Rgb): (int, int) -> Rgb {
    (px, py) => if HasPixel(dmg, px, py) then Composite(vs, bg, px, py) else front(px, py)
  }

  lemma RepaintAt(dmg: seq<Rect>, vs: seq<View>, bg: Rgb, front: (int, int) -> Rgb, px: int, py: int)
    ensures Repaint(dmg, vs, bg, front)(px, py) == if Covered(dmg, px, py) then Composite(vs, bg, px, py) else front(px, py)
  {
    hide Composite, Covered;
    assert HasPixel(dmg, px, py) <==> Covered(dmg, px, py);
  }

  /** Executable form of `Covered`. */
  predicate HasPixel(rs: seq<Rect>, px: int, py: int)
    ensures HasPixel(rs, px, py) <==> Covered(rs, px, py)
  {
    exists i :: 0 <= i < |rs| && rs[i].Has(px, py)
  }

  /** A new registration: nothing has been painted for it yet, whatever its snapshot says. */
  function Register(st: State, s: Surf): State {
    if |st.slots| >= MAX_SURFACES then st else st.(slots := st.slots + [s.(shown := NOTHING_SHOWN)])
  }

  function Unregister(st: State, i: nat): State
    requires i < |st.slots|
  {
    var s := st.slots[i];
    st.(carry := if s.prev.Some? then Added(st.carry, s.prev.value.Bounds()) else st.carry,
        slots := st.slots[..i] + st.slots[i + 1..])
  }

  function Update(st: State, i: nat, s: Surf): State
    requires i < |st.slots|
  {
    st.(slots := st.slots[i := s])
  }

  // ---------------------------------------------------------------- the invariant

  /** Damage that does not depend on the surfaces' current state. */
  ghost predicate Pending(st: State, px: int, py: int) {
    st.full || Covered(st.carry, px, py)
  }

  ghost predicate WellFormed(st: State) {
    && |st.slots| <= MAX_SURFACES
    && Disjoint(st.carry) && |st.carry| <= MAX_RECTS
    && forall i :: 0 <= i < |st.slots| ==> st.slots[i].Valid()
  }

  /** What is on the screen for a surface lies within its snapshot. */
  predicate InPlace(s: Surf, px: int, py: int) {
    s.shown(px, py).Some? ==> s.prev.Some? && s.prev.value.Contributes() && s.prev.value.Bounds().Has(px, py)
  }

  /** Away from pending damage the scanout shows what was painted for the slots, each within its snapshot. */
  ghost predicate InSync(st: State) {
    && WellFormed(st)
    && (forall px, py :: st.Screen().Has(px, py) && !Pending(st, px, py) ==>
          st.front(px, py) == ShownComposite(st.slots, st.shownBg, px, py))
    && (forall i, px, py :: 0 <= i < |st.slots| && st.Screen().Has(px, py) && !Pending(st, px, py) ==>
          InPlace(st.slots[i], px, py))
  }

  /** The scanout shows the from-scratch composite of the surfaces as they are now. */
  ghost predicate ShowsComposite(st: State, bg: Rgb) {
    forall px, py :: st.Screen().Has(px, py) ==> st.front(px, py) == Composite(Views(st.slots), bg, px, py)
  }

  lemma {:induction false} AddAllIsDisjoint(rs: seq<Rect>)
    ensures Disjoint(AddAll(rs)) && |AddAll(rs)| <= MAX_RECTS
  {
    if rs != [] {
      AddAllIsDisjoint(rs[..|rs| - 1]);
      AddedIsDisjoint(AddAll(rs[..|rs| - 1]), rs[|rs| - 1]);
    }
  }

  lemma {:induction false} AddAllCovers(rs: seq<Rect>, px: int, py: int)
    requires AllKept(rs) && Covered(rs, px, py)
    ensures Covered(AddAll(rs), px, py)
  {
    if rs != [] {
      var n := |rs| - 1;
      CoveredSnoc(rs, px, py);
      AddAllIsDisjoint(rs[..n]);
      if Covered(rs[..n], px, py) {
        AddAllCovers(rs[..n], px, py);
      }
      AddedCovers(AddAll(rs[..n]), rs[n], px, py);
    }
  }

  lemma EmptyAddAll()
    ensures AddAll([]) == []
  {
  }

  /** Up to sixteen additions can never overflow the list. */
  lemma {:induction false} FewAdditionsKept(rs: seq<Rect>)
    requires |rs| <= MAX_RECTS
    ensures AllKept(rs) && |AddAll(rs)| <= |rs|
  {
    if rs != [] {
      FewAdditionsKept(rs[..|rs| - 1]);
    }
  }

  lemma {:induction false} SlotDamageCovers(slots: seq<Surf>, i: nat, px: int, py: int)
    requires i < |slots| && Covered(DamageOf(slots[i]), px, py)
    ensures Covered(SlotDamage(slots), px, py)
  {
    var n := |slots| - 1;
    CoveredAppend(SlotDamage(slots[..n]), DamageOf(slots[n]), px, py);
    if i < n {
      SlotDamageCovers(slots[..n], i, px, py);
    }
  }

  /** A screen pixel that a frame does not repaint is not pending and is outside every surface's damage. */
  lemma UntouchedPixel(st: State, px: int, py: int)
    requires WellFormed(st) && AllKept(FrameDamage(st)) && st.Screen().Has(px, py)
    requires !Covered(Repainted(st), px, py)
    ensures !Pending(st, px, py)
    ensures forall i :: 0 <= i < |st.slots| ==> !Covered(DamageOf(st.slots[i]), px, py)
  {
    hide Added;
    hide Absorb;
    var head := if st.full then [st.Screen()] else [];
    ClippedIsIntersection(AddAll(FrameDamage(st)), st.Screen(), px, py);
    assert !Covered(FrameDamage(st), px, py) by {
      if Covered(FrameDamage(st), px, py) {
        AddAllCovers(FrameDamage(st), px, py);
      }
    }
    CoveredAppend(head + st.carry, SlotDamage(st.slots), px, py);
    CoveredAppend(head, st.carry, px, py);
    CoveredOne(st.Screen(), px, py);
    forall i | 0 <= i < |st.slots| ensures !Covered(DamageOf(st.slots[i]), px, py) {
      if Covered(DamageOf(st.slots[i]), px, py) {
        SlotDamageCovers(st.slots, i, px, py);
      }
    }
  }

  /** What the damage list must keep for a frame to stay in step: no forgotten damage, and a repaint request
      if the background changed. */
  predicate FrameOk(st: State, bg: Rgb) {
    AllKept(FrameDamage(st)) && (st.full || bg == st.shownBg)
  }

  /** The marks tell of every change: a pixel that differs is in its surface's damage, or repainted anyway. */
  ghost predicate AllTold(st: State) {
    forall i, px, py :: 0 <= i < |st.slots| && st.Screen().Has(px, py) && !Pending(st, px, py) && st.slots[i].Differs(px, py) ==>
      Covered(DamageOf(st.slots[i]), px, py)
  }

  lemma FramePixel(st: State, bg: Rgb, px: int, py: int)
    requires InSync(st) && FrameOk(st, bg) && AllTold(st) && st.Screen().Has(px, py)
    ensures Frame(st, bg).front(px, py) == Composite(Views(st.slots), bg, px, py)
  {
    FrameFront(st, bg, px, py);
    if !Covered(Repainted(st), px, py) {
      UntouchedPixel(st, px, py);
      hide Composite, Repainted, Frame, AllKept, FrameDamage, DamageOf, Covered, ShownComposite, Surf.Differs;
      UnchangedComposite(st.slots, bg, px, py);
    }
  }

  /** A frame sets exactly the repainted pixels. */
  lemma FrameFront(st: State, bg: Rgb, px: int, py: int)
    ensures Frame(st, bg).front(px, py)
         == if Covered(Repainted(st), px, py) then Composite(Views(st.slots), bg, px, py) else st.front(px, py)
  {
    hide Composite, Repainted, Repaint;
    RepaintAt(Repainted(st), Views(st.slots), bg, st.front, px, py);
    if Repainted(st) == [] {
      assert !Covered(Repainted(st), px, py);
    }
  }

  /** A placement that the compositor finds changed is damaged where it was and where it is. */
  lemma MovedIsDamaged(s: Surf, px: int, py: int)
    requires s.prev != Some(s.view.geom) && !Covered(DamageOf(s), px, py)
    ensures KeyedInk(s.view, px, py).None?
    ensures s.prev.Some? ==> !(s.prev.value.Contributes() && s.prev.value.Bounds().Has(px, py))
  {
    hide Blit.Coverage;
    var d := DamageOf(s);
    assert Changed(s) && !GeomMatchesPrev(s);
    assert d != [] ==> !d[0].Has(px, py) && !d[|d| - 1].Has(px, py);
  }

  /** After a frame every slot's ink is within its new snapshot. */
  lemma FrameKeepsPlace(s: Surf, dmg: seq<Rect>, px: int, py: int)
    requires Covered(dmg, px, py) || (InPlace(s, px, py) && !Covered(DamageOf(s), px, py))
    ensures InPlace(Snapshot(s, dmg), px, py)
  {
    ReshownAt(dmg, s.view, s.shown, px, py);
    if Covered(dmg, px, py) {
      InkIsInside(s.view, px, py);
    } else if s.prev != Some(s.view.geom) {
      MovedIsDamaged(s, px, py);
    }
    hide DamageOf, KeyedInk, Covered, Reshown;
  }

  lemma InkIsInside(v: View, px: int, py: int)
    ensures KeyedInk(v, px, py).Some? ==> v.geom.Contributes() && v.geom.Bounds().Has(px, py)
  {
    hide Blit.Coverage;
  }

  /** On a pixel that was painted anew, what is shown is what belongs there; elsewhere nothing changes. */
  lemma FrameShown(slots: seq<Surf>, dmg: seq<Rect>, bg: Rgb, px: int, py: int)
    ensures ShownComposite(SnapshotAll(slots, dmg), bg, px, py)
         == if Covered(dmg, px, py) then Composite(Views(slots), bg, px, py) else ShownComposite(slots, bg, px, py)
  {
    var after := SnapshotAll(slots, dmg);
    forall i | 0 <= i < |slots|
      ensures after[i].shown(px, py) == if Covered(dmg, px, py) then KeyedInk(slots[i].view, px, py) else slots[i].shown(px, py)
    {
      ReshownAt(dmg, slots[i].view, slots[i].shown, px, py);
    }
    hide KeyedInk, Covered, Reshown, Composite, LayAll, SortZ;
    if Covered(dmg, px, py) {
      assert Views(after) == Views(slots);
      UnchangedComposite(after, bg, px, py);
    } else {
      SameShown(after, slots, px, py);
    }
  }

  /** A frame whose damage list forgets nothing keeps the screen in step with what was painted, whether or not
      the marks told of every change. */
  lemma FrameKeepsSync(st: State, bg: Rgb)
    requires InSync(st) && FrameOk(st, bg)
    ensures InSync(Frame(st, bg))
  {
    hide Composite, AllKept, FrameDamage, ShownComposite, InPlace, Reshown, DamageOf, Snapshot;
    var next := Frame(st, bg);
    assert forall px, py :: !Pending(next, px, py) by {
      NoneCovered();
    }
    forall px, py | st.Screen().Has(px, py)
      ensures next.front(px, py) == ShownComposite(next.slots, next.shownBg, px, py)
      ensures forall i :: 0 <= i < |st.slots| ==> InPlace(next.slots[i], px, py)
    {
      hide Repainted, Frame;
      FrameSlots(st, bg);
      FrameFront(st, bg, px, py);
      FrameShown(st.slots, Repainted(st), bg, px, py);
      if !Covered(Repainted(st), px, py) {
        UntouchedPixel(st, px, py);
      } else {
        SomethingRepainted(st, px, py);
      }
      forall i | 0 <= i < |st.slots|
        ensures InPlace(next.slots[i], px, py)
      {
        FrameKeepsPlace(st.slots[i], Repainted(st), px, py);
      }
    }
    FrameKeepsForm(st, bg);
  }

  lemma FrameSlots(st: State, bg: Rgb)
    ensures Frame(st, bg).slots == if Repainted(st) == [] then st.slots else SnapshotAll(st.slots, Repainted(st))
    ensures Frame(st, bg).shownBg == bg && Frame(st, bg).carry == [] && !Frame(st, bg).full && Frame(st, bg).Screen() == st.Screen()
  {
    hide Repainted;
  }

  lemma FrameKeepsForm(st: State, bg: Rgb)
    requires WellFormed(st)
    ensures WellFormed(Frame(st, bg))
  {
    FrameSlots(st, bg);
    hide Frame, Repainted, Reshown;
  }

  lemma NoneCovered()
    ensures forall px, py :: !Covered([], px, py)
  {}

  lemma SomethingRepainted(st: State, px: int, py: int)
    requires Covered(Repainted(st), px, py)
    ensures Repainted(st) != []
  {
    hide Repainted;
  }

  /** If moreover the marks told of every change, every pixel of the scanout shows the from-scratch composite,
      whether the frame composed something or returned early. */
  lemma FrameShowsComposite(st: State, bg: Rgb)
    requires InSync(st) && FrameOk(st, bg)
    ensures InSync(Frame(st, bg))
    ensures AllTold(st) ==> ShowsComposite(Frame(st, bg), bg)
  {
    FrameKeepsSync(st, bg);
    var next := Frame(st, bg);
    assert Views(next.slots) == Views(st.slots);
    hide InSync, FrameOk, Composite, Repainted, Frame;
    if AllTold(st) {
      forall px, py | st.Screen().Has(px, py)
        ensures next.front(px, py) == Composite(Views(next.slots), bg, px, py)
      {
        FramePixel(st, bg, px, py);
      }
    }
  }

  // ---------------------------------------------------------------- the other operations

  /** Registering any surface is safe: nothing has been painted for it. Whether the next frame paints it
      is a condition on that frame. */
  lemma RegisterKeepsSync(st: State, s: Surf)
    requires InSync(st) && s.Valid()
    ensures InSync(Register(st, s))
  {
    hide LayAll, SortZ, ShownInks;
    if |st.slots| < MAX_SURFACES {
      var next := Register(st, s);
      forall px, py | next.Screen().Has(px, py) && !Pending(next, px, py)
        ensures ShownComposite(next.slots, next.shownBg, px, py) == ShownComposite(st.slots, st.shownBg, px, py)
      {
        Vanishes(next.slots, |st.slots|, px, py);
        assert next.slots[..|st.slots|] + next.slots[|st.slots| + 1..] == st.slots;
      }
      assert forall px, py :: Pending(next, px, py) == Pending(st, px, py);
    }
  }

  predicate UnregisterOk(st: State, i: nat)
    requires i < |st.slots|
  {
    st.full || st.slots[i].prev.None? || Keeps(st.carry, st.slots[i].prev.value.Bounds())
  }

  lemma UnregisterKeepsSync(st: State, i: nat)
    requires InSync(st) && i < |st.slots| && UnregisterOk(st, i)
    ensures InSync(Unregister(st, i))
  {
    hide Added, Keeps, LayAll, SortZ, ShownInks;
    var s := st.slots[i];
    var next := Unregister(st, i);
    if s.prev.Some? {
      AddedIsDisjoint(st.carry, s.prev.value.Bounds());
    }
    forall px, py | next.Screen().Has(px, py) && !Pending(next, px, py)
      ensures !Pending(st, px, py) && s.shown(px, py).None?
      ensures ShownComposite(next.slots, next.shownBg, px, py) == ShownComposite(st.slots, st.shownBg, px, py)
    {
      if s.prev.Some? && (Covered(st.carry, px, py) || s.prev.value.Bounds().Has(px, py)) {
        AddedCovers(st.carry, s.prev.value.Bounds(), px, py);
      }
      assert !Pending(st, px, py) && InPlace(s, px, py);
      Vanishes(st.slots, i, px, py);
    }
  }

  /** Dropping a slot that shows nothing on a pixel changes nothing there. */
  lemma Vanishes(slots: seq<Surf>, i: nat, px: int, py: int)
    requires i < |slots| && slots[i].shown(px, py).None?
    ensures ShownInks(slots[..i] + slots[i + 1..], px, py) == ShownInks(slots, px, py)
  {
    hide ShownInks;
    var a, b, one := slots[..i], slots[i + 1..], [slots[i]];
    assert slots == a + one + b;
    ShownAppend(a + one, b, px, py);
    ShownAppend(a, one, px, py);
    ShownAppend(a, b, px, py);
    assert one[..0] == [];
    ShownStep(one, px, py);
    NoneShown(px, py);
    Regroup(ShownInks(a, px, py), [], []);
  }

  /** A change of one surface that keeps its snapshot keeps the state in sync: only the next frame
      looks at it. */
  lemma UpdateKeepsSync(st: State, i: nat, s: Surf)
    requires InSync(st) && i < |st.slots| && s.Valid() && s.shown == st.slots[i].shown && s.prev == st.slots[i].prev
    ensures InSync(Update(st, i, s))
  {
    hide LayAll, SortZ, ShownInks;
    var next := Update(st, i, s);
    forall px, py
      ensures ShownInks(next.slots, px, py) == ShownInks(st.slots, px, py)
    {
      SameShown(next.slots, st.slots, px, py);
    }
    assert forall px, py :: Pending(next, px, py) == Pending(st, px, py);
  }

  lemma RequestRepaintKeepsSync(st: State)
    requires InSync(st)
    ensures InSync(st.(full := true))
  {
  }

  // ---------------------------------------------------------------- runs

  /** What the rest of the kernel does to the compositor between and around frames. `Restyle` stands for
      every change of placement: move, depth, raise, lower, alpha, visibility, opacity, corner radius.
      Pixel writes and marks are separate steps, in whatever order; a write names a rectangle that
      holds the pixels it changes. */
  datatype Op =
    | Add(s: Surf)
    | Remove(i: nat)
    | Restyle(i: nat, g: Geom)
    | Write(i: nat, pixels: seq<Pixel>, r: Rect)
    | MarkFull(i: nat)
    | MarkPart(i: nat, r: Rect)
    | RequestFull
    | FrameOp(bg: Rgb)

  function Apply(st: State, op: Op): State {
    match op
    case Add(s) => Register(st, s)
    case Remove(i) => if i < |st.slots| then Unregister(st, i) else st
    case Restyle(i, g) =>
      if i < |st.slots| then Update(st, i, st.slots[i].(view := st.slots[i].view.(geom := g))) else st
    case Write(i, pixels, r) => if i < |st.slots| then Update(st, i, Rewrite(st.slots[i], pixels)) else st
    case MarkFull(i) => if i < |st.slots| then Update(st, i, MarkDirty(st.slots[i])) else st
    case MarkPart(i, r) => if i < |st.slots| then Update(st, i, MarkDirtyRect(st.slots[i], r)) else st
    case RequestFull => st.(full := true)
    case FrameOp(bg) => Frame(st, bg)
  }

  function Rewrite(s: Surf, pixels: seq<Pixel>): Surf {
    s.(view := s.view.(pixels := pixels))
  }

  /** What the types and setters of the kernel guarantee by themselves. */
  ghost predicate Legal(st: State, op: Op) {
    match op
    case Add(s) => s.Valid()
    case Restyle(i, g) =>
      i < |st.slots| ==> var o := st.slots[i].view.geom; g.w == o.w && g.h == o.h && g.radius <= 64
    case Write(i, pixels, r) =>
      i < |st.slots| ==> |pixels| == |st.slots[i].view.pixels| && ChangesWithin(st.slots[i], pixels, r)
    case _ => true
  }

  /** Every pixel that differs afterwards lies in `r`. */
  ghost predicate ChangesWithin(s: Surf, pixels: seq<Pixel>, r: Rect) {
    |pixels| == |s.view.pixels|
    && forall k: nat :: k < |pixels| && pixels[k] != s.view.pixels[k] ==> HoldsIndex(r, s.view.geom.w, k)
  }

  /** What a caller must observe beyond that. */
  ghost predicate OpOk(st: State, op: Op) {
    && Legal(st, op)
    && (op.Remove? && op.i < |st.slots| ==> UnregisterOk(st, op.i))
    && (op.FrameOp? ==> FrameOk(st, op.bg))
  }

  /** Index `k` of a row-major buffer of width `w` lies in `r`. */
  predicate HoldsIndex(r: Rect, w: nat, k: nat) {
    w > 0 && r.Has(k % w, k / w)
  }

  lemma MarkRectIsValid(s: Surf, r: Rect)
    requires s.Valid()
    ensures var t := MarkDirtyRect(s, r); t.Valid() && t.shown == s.shown && t.prev == s.prev && t.view == s.view
  {
    var c := Intersect(r, s.Local());
    assert !c.Empty() ==> c.Inside(s.Local());
  }

  lemma StepKeepsSync(st: State, op: Op)
    requires InSync(st) && OpOk(st, op)
    ensures InSync(Apply(st, op))
    ensures op.FrameOp? && AllTold(st) ==> ShowsComposite(Apply(st, op), op.bg)
  {
    hide Composite, FrameOk, ShowsComposite, AllTold, ShownComposite, InPlace;
    match op
    case Add(s) => RegisterKeepsSync(st, s);
    case Remove(i) => if i < |st.slots| { UnregisterKeepsSync(st, i); }
    case Restyle(i, g) =>
      if i < |st.slots| {
        UpdateKeepsSync(st, i, st.slots[i].(view := st.slots[i].view.(geom := g)));
      }
    case Write(i, pixels, r) =>
      if i < |st.slots| {
        UpdateKeepsSync(st, i, Rewrite(st.slots[i], pixels));
      }
    case MarkFull(i) =>
      if i < |st.slots| {
        UpdateKeepsSync(st, i, MarkDirty(st.slots[i]));
      }
    case MarkPart(i, r) =>
      if i < |st.slots| {
        MarkRectIsValid(st.slots[i], r);
        UpdateKeepsSync(st, i, MarkDirtyRect(st.slots[i], r));
      }
    case RequestFull => RequestRepaintKeepsSync(st);
    case FrameOp(bg) => FrameShowsComposite(st, bg);
  }

  function Run(st: State, ops: seq<Op>): State {
    if ops == [] then st else Apply(Run(st, ops[..|ops| - 1]), ops[|ops| - 1])
  }

  ghost predicate RunOk(st: State, ops: seq<Op>) {
    ops == [] || (RunOk(st, ops[..|ops| - 1]) && OpOk(Run(st, ops[..|ops| - 1]), ops[|ops| - 1]))
  }

  /** The state after compositor_init: no surfaces, a full repaint requested, anything on the screen. */
  predicate Initial(st: State) {
    st.slots == [] && st.carry == [] && st.full
  }

  /** Where a run may start: at initialisation, or at any later moment with a full repaint pending,
      whatever went wrong before and whatever is on the screen. */
  ghost predicate Restart(st: State) {
    WellFormed(st) && st.full
  }

  lemma InitialIsRestart(st: State)
    requires Initial(st)
    ensures Restart(st)
  {}

  lemma {:induction false} RunKeepsSync(st: State, ops: seq<Op>)
    requires Restart(st) && RunOk(st, ops)
    ensures InSync(Run(st, ops))
  {
    hide Composite, OpOk, Apply;
    if ops != [] {
      RunKeepsSync(st, ops[..|ops| - 1]);
      StepKeepsSync(Run(st, ops[..|ops| - 1]), ops[|ops| - 1]);
    }
  }

  lemma {:induction false} RunPrefixOk(st: State, ops: seq<Op>, k: nat)
    requires k <= |ops| && RunOk(st, ops)
    ensures RunOk(st, ops[..k])
  {
    hide OpOk, Apply;
    if k < |ops| {
      RunPrefixOk(st, ops[..|ops| - 1], k);
      assert ops[..|ops| - 1][..k] == ops[..k];
    } else {
      assert ops[..k] == ops;
    }
  }

  /** The main theorem: over every run from boot, or from any moment with a full repaint pending, after
      every frame that finds its marks telling, whatever earlier frames found, each scanout pixel shows
      what painting the background and then every surface from scratch would show. */
  lemma EveryFrameShowsComposite(st: State, ops: seq<Op>, k: nat)
    requires Restart(st) && RunOk(st, ops) && k < |ops| && ops[k].FrameOp? && AllTold(Run(st, ops[..k]))
    ensures ShowsComposite(Run(st, ops[..k + 1]), ops[k].bg)
  {
    hide Apply, FrameOk, Legal, UnregisterOk, ShowsComposite, AllTold;
    RunPrefixOk(st, ops, k + 1);
    assert ops[..k + 1][..k] == ops[..k];
    RunKeepsSync(st, ops[..k]);
    StepKeepsSync(Run(st, ops[..k]), ops[k]);
  }

  // ---------------------------------------------------------------- what every run keeps

  lemma StepKeepsForm(st: State, op: Op)
    requires WellFormed(st) && Legal(st, op)
    ensures WellFormed(Apply(st, op))
  {
    hide Added, Repainted, Composite;
    match op
    case Remove(i) =>
      if i < |st.slots| && st.slots[i].prev.Some? {
        AddedIsDisjoint(st.carry, st.slots[i].prev.value.Bounds());
      }
    case MarkPart(i, r) =>
      if i < |st.slots| {
        MarkRectIsValid(st.slots[i], r);
      }
    case FrameOp(bg) => FrameKeepsForm(st, bg);
    case _ =>
  }

  ghost predicate AllLegal(st: State, ops: seq<Op>) {
    ops == [] || (AllLegal(st, ops[..|ops| - 1]) && Legal(Run(st, ops[..|ops| - 1]), ops[|ops| - 1]))
  }

  /** Every run at all, careless ones included, ends in a state from which a full repaint recovers. */
  lemma {:induction false} FullRequestRecovers(st: State, ops: seq<Op>)
    requires WellFormed(st) && AllLegal(st, ops)
    ensures WellFormed(Run(st, ops)) && Restart(Run(st, ops + [RequestFull]))
  {
    hide Apply, Legal, WellFormed;
    assert (ops + [RequestFull])[..|ops|] == ops;
    if ops != [] {
      FullRequestRecovers(st, ops[..|ops| - 1]);
      StepKeepsForm(Run(st, ops[..|ops| - 1]), ops[|ops| - 1]);
    }
    RequestKeepsForm(Run(st, ops));
  }

  lemma RequestKeepsForm(st: State)
    ensures Apply(st, RequestFull) == st.(full := true)
    ensures WellFormed(st) ==> WellFormed(st.(full := true))
  {}

  // ---------------------------------------------------------------- keeping the books on marks

  /** What a careful caller remembers of one surface: nothing is unmarked, at most this rectangle is, or
      anything may be. */
  datatype Debt = Clear | Within(r: Rect) | Everything

  predicate Owes(d: Debt, lx: int, ly: int) {
    d.Everything? || (d.Within? && d.r.Has(lx, ly))
  }

  /** Where the snapshot is, a pixel that does not show the current texel is marked or owed. */
  predicate BackedAt(s: Surf, d: Debt, px: int, py: int) {
    s.prev.Some? && s.prev.value.Bounds().Has(px, py) && KeyedInk(s.AtSnapshot(), px, py) != s.shown(px, py) ==>
      var lx, ly := px - s.prev.value.x, py - s.prev.value.y;
      s.Marked(lx, ly) || Owes(d, lx, ly)
  }

  ghost predicate AllBacked(st: State, ds: seq<Debt>) {
    && |ds| == |st.slots|
    && forall i, px, py :: 0 <= i < |st.slots| && st.Screen().Has(px, py) && !Pending(st, px, py) ==>
         BackedAt(st.slots[i], ds[i], px, py)
  }

  /** A full mark is pending. */
  predicate FullPending(s: Surf) {
    s.dirty && s.part.None?
  }

  function AfterAdd(s: Surf): Debt {
    if s.prev.None? || FullPending(s) then Clear else Everything
  }

  function AfterWrite(s: Surf, d: Debt, r: Rect): Debt {
    if s.prev.None? || FullPending(s) then d
    else match d
      case Clear => Within(r)
      case Within(q) => Within(Union(q, r))
      case Everything => Everything
  }

  /** A partial mark settles the debt it covers; one that shrinks a full mark owes everything. */
  function AfterPart(s: Surf, d: Debt, r: Rect): Debt {
    if Intersect(r, s.Local()).Empty() then d
    else if s.Local().Inside(r) then Clear
    else if FullPending(s) && s.prev.Some? then Everything
    else if d.Within? && d.r.Inside(r) then Clear
    else d
  }

  /** A frame repaints a surface whole if it moved or is fully marked; otherwise what was owed is still owed. */
  function AfterFrame(s: Surf, d: Debt): Debt {
    if s.prev != Some(s.view.geom) || FullPending(s) then Clear else d
  }

  /** The books after one operation. */
  function Book(st: State, ds: seq<Debt>, op: Op): seq<Debt>
    requires |ds| == |st.slots|
  {
    match op
    case Add(s) => if |st.slots| >= MAX_SURFACES then ds else ds + [AfterAdd(s)]
    case Remove(i) => if i < |ds| then ds[..i] + ds[i + 1..] else ds
    case Write(i, pixels, r) => if i < |ds| then ds[i := AfterWrite(st.slots[i], ds[i], r)] else ds
    case MarkFull(i) => if i < |ds| then ds[i := Clear] else ds
    case MarkPart(i, r) => if i < |ds| then ds[i := AfterPart(st.slots[i], ds[i], r)] else ds
    case FrameOp(bg) =>
      if Repainted(st) == [] then ds
      else seq(|ds|, i requires 0 <= i < |ds| => if st.full then Clear else AfterFrame(st.slots[i], ds[i]))
    case _ => ds
  }

  lemma BookLength(st: State, ds: seq<Debt>, op: Op)
    requires |ds| == |st.slots|
    ensures |Book(st, ds, op)| == |Apply(st, op).slots|
  {
    hide Repainted, Added, Composite;
  }

  /** The books after a run; they start with everything owed. */
  function Books(st: State, ops: seq<Op>): (ds: seq<Debt>)
    ensures |ds| == |Run(st, ops).slots|
  {
    if ops == [] then seq(|st.slots|, _ => Everything)
    else
      var before := Run(st, ops[..|ops| - 1]);
      BookLength(before, Books(st, ops[..|ops| - 1]), ops[|ops| - 1]);
      Book(before, Books(st, ops[..|ops| - 1]), ops[|ops| - 1])
  }

  lemma TexelIsRowMajor(v: View, lx: int, ly: int)
    requires v.Valid() && v.geom.Bounds().Has(v.geom.x + lx, v.geom.y + ly)
    ensures var k := ly * v.geom.w + lx;
            && 0 <= k < |v.pixels| && k % v.geom.w == lx && k / v.geom.w == ly
            && v.Source().Texel(lx, ly) == v.pixels[k]
  {
    Blit.RowInBuffer(ly, v.geom.h, v.geom.w, lx + 1);
    Division.DivMod(ly, lx, v.geom.w);
  }

  /** A write changes the ink of a placed view only where it changes a texel. */
  lemma WriteChangesInk(s: Surf, pixels: seq<Pixel>, r: Rect, g: Geom, px: int, py: int)
    requires s.Valid() && ChangesWithin(s, pixels, r) && g.w == s.view.geom.w && g.h == s.view.geom.h && g.radius <= 64
    requires g.Bounds().Has(px, py) && !r.Has(px - g.x, py - g.y)
    ensures KeyedInk(View(g, pixels), px, py) == KeyedInk(View(g, s.view.pixels), px, py)
  {
    hide Blit.Coverage;
    var lx, ly := px - g.x, py - g.y;
    TexelIsRowMajor(View(g, pixels), lx, ly);
    TexelIsRowMajor(View(g, s.view.pixels), lx, ly);
    var k := ly * g.w + lx;
    assert pixels[k] == s.view.pixels[k];
  }

  lemma BackedWrite(s: Surf, d: Debt, pixels: seq<Pixel>, r: Rect, px: int, py: int)
    requires s.Valid() && BackedAt(s, d, px, py) && ChangesWithin(s, pixels, r)
    ensures BackedAt(Rewrite(s, pixels), AfterWrite(s, d, r), px, py)
  {
    hide KeyedInk, Union;
    if s.prev.Some? && s.prev.value.Bounds().Has(px, py) {
      var g := s.prev.value;
      var lx, ly := px - g.x, py - g.y;
      if !r.Has(lx, ly) {
        WriteChangesInk(s, pixels, r, g, px, py);
      }
      if !FullPending(s) {
        WriteOwes(s, d, r, lx, ly);
      }
    }
  }

  /** The books owe what they owed before and the rectangle written. */
  lemma WriteOwes(s: Surf, d: Debt, r: Rect, lx: int, ly: int)
    requires s.prev.Some? && !FullPending(s)
    ensures Owes(d, lx, ly) || r.Has(lx, ly) ==> Owes(AfterWrite(s, d, r), lx, ly)
  {}

  lemma BackedPart(s: Surf, d: Debt, r: Rect, px: int, py: int)
    requires s.Valid() && BackedAt(s, d, px, py)
    ensures BackedAt(MarkDirtyRect(s, r), AfterPart(s, d, r), px, py)
  {
    hide KeyedInk, MarkDirtyRect, AfterPart;
    MarkRectIsValid(s, r);
    if s.prev.Some? && s.prev.value.Bounds().Has(px, py) && KeyedInk(s.AtSnapshot(), px, py) != s.shown(px, py) {
      PartSettles(s, d, r, px - s.prev.value.x, py - s.prev.value.y);
    }
  }

  /** A pixel marked or owed before a partial mark is marked or owed after it. */
  lemma PartSettles(s: Surf, d: Debt, r: Rect, lx: int, ly: int)
    requires s.Valid() && s.prev.Some? && s.Local().Has(lx, ly)
    requires s.Marked(lx, ly) || Owes(d, lx, ly)
    ensures MarkDirtyRect(s, r).Marked(lx, ly) || Owes(AfterPart(s, d, r), lx, ly)
  {
    var c := Intersect(r, s.Local());
    assert r.Has(lx, ly) ==> c.Has(lx, ly);
    assert s.Local().Inside(r) ==> r.Has(lx, ly);
    hide Intersect;
    if !c.Empty() && r.Has(lx, ly) {
      assert MarkDirtyRect(s, r).Marked(lx, ly);
    }
  }

  /** A frame repaints what is marked; what was owed is still owed. */
  lemma BackedFrame(s: Surf, d: Debt, dmg: seq<Rect>, px: int, py: int)
    requires Covered(dmg, px, py) || (InPlace(s, px, py) && !Covered(DamageOf(s), px, py) && BackedAt(s, d, px, py))
    ensures BackedAt(Snapshot(s, dmg), AfterFrame(s, d), px, py)
    ensures Covered(dmg, px, py) ==> BackedAt(Snapshot(s, dmg), Clear, px, py)
  {
    ReshownAt(dmg, s.view, s.shown, px, py);
    if !Covered(dmg, px, py) {
      if s.prev == Some(s.view.geom) {
        MarkedIsDamaged(s, px, py);
        InkIsInside(s.view, px, py);
      } else {
        MovedIsDamaged(s, px, py);
      }
    }
    hide KeyedInk, DamageOf, Covered, Reshown;
    assert Snapshot(s, dmg).AtSnapshot() == s.view;
  }

  /** In place, a marked pixel of a surface that shows is damaged. */
  lemma MarkedIsDamaged(s: Surf, px: int, py: int)
    requires s.prev == Some(s.view.geom) && !Covered(DamageOf(s), px, py)
    ensures s.view.geom.Contributes() && s.view.geom.Bounds().Has(px, py) ==> !s.Marked(px - s.view.geom.x, py - s.view.geom.y)
  {
    var d := DamageOf(s);
    assert GeomMatchesPrev(s);
    assert d != [] ==> !d[|d| - 1].Has(px, py);
  }

  lemma FrameKeepsBooks(st: State, ds: seq<Debt>, bg: Rgb)
    requires InSync(st) && FrameOk(st, bg) && AllBacked(st, ds)
    ensures AllBacked(Frame(st, bg), Book(st, ds, FrameOp(bg)))
  {
    hide AllKept, FrameDamage, BackedAt, AfterFrame, Snapshot, DamageOf, InPlace, ShownComposite;
    var next, ds2 := Frame(st, bg), Book(st, ds, FrameOp(bg));
    FrameSlots(st, bg);
    forall i, px, py | 0 <= i < |st.slots| && st.Screen().Has(px, py)
      ensures BackedAt(next.slots[i], ds2[i], px, py)
    {
      hide Repainted, Frame;
      if !Covered(Repainted(st), px, py) {
        UntouchedPixel(st, px, py);
        assert !Pending(st, px, py);
      } else {
        SomethingRepainted(st, px, py);
      }
      BackedFrame(st.slots[i], ds[i], Repainted(st), px, py);
    }
  }

  lemma BookKeepsBacked(st: State, ds: seq<Debt>, op: Op)
    requires InSync(st) && OpOk(st, op) && AllBacked(st, ds)
    ensures AllBacked(Apply(st, op), Book(st, ds, op))
  {
    match op
    case Add(s) => AddKeepsBooks(st, ds, s);
    case Remove(i) => if i < |ds| { RemoveKeepsBooks(st, ds, i); }
    case FrameOp(bg) => FrameKeepsBooks(st, ds, bg);
    case _ => ChangeKeepsBooks(st, ds, op);
    hide InSync, OpOk, AllBacked, Apply, Book;
  }

  lemma AddKeepsBooks(st: State, ds: seq<Debt>, s: Surf)
    requires s.Valid() && AllBacked(st, ds)
    ensures AllBacked(Register(st, s), Book(st, ds, Add(s)))
  {
    hide KeyedInk, Repainted;
    var t := s.(shown := NOTHING_SHOWN);
    assert forall px, py :: Pending(Register(st, s), px, py) == Pending(st, px, py);
    assert forall px, py :: BackedAt(t, AfterAdd(s), px, py);
  }

  lemma RemoveKeepsBooks(st: State, ds: seq<Debt>, i: nat)
    requires InSync(st) && i < |st.slots| && UnregisterOk(st, i) && AllBacked(st, ds)
    ensures AllBacked(Unregister(st, i), Book(st, ds, Remove(i)))
  {
    hide BackedAt, Added, Keeps, Repainted, ShownComposite, InPlace;
    var next, s := Unregister(st, i), st.slots[i];
    forall px, py | !Pending(next, px, py)
      ensures !Pending(st, px, py)
    {
      if s.prev.Some? && Covered(st.carry, px, py) {
        AddedCovers(st.carry, s.prev.value.Bounds(), px, py);
      }
    }
  }

  /** Changes of one surface, and requests. */
  lemma ChangeKeepsBooks(st: State, ds: seq<Debt>, op: Op)
    requires WellFormed(st) && Legal(st, op) && AllBacked(st, ds)
    requires op.Restyle? || op.Write? || op.MarkFull? || op.MarkPart? || op.RequestFull?
    ensures AllBacked(Apply(st, op), Book(st, ds, op))
  {
    var next, ds2 := Apply(st, op), Book(st, ds, op);
    assert |next.slots| == |st.slots| && |ds2| == |ds| && next.Screen() == st.Screen();
    forall i, px, py | 0 <= i < |st.slots| && st.Screen().Has(px, py) && !Pending(next, px, py)
      ensures BackedAt(next.slots[i], ds2[i], px, py)
    {
      assert !Pending(st, px, py) && BackedAt(st.slots[i], ds[i], px, py);
      ChangeKeepsBacked(st, ds, op, i, px, py);
    }
  }

  lemma ChangeKeepsBacked(st: State, ds: seq<Debt>, op: Op, i: nat, px: int, py: int)
    requires WellFormed(st) && Legal(st, op) && |ds| == |st.slots| && i < |ds| && BackedAt(st.slots[i], ds[i], px, py)
    requires op.Restyle? || op.Write? || op.MarkFull? || op.MarkPart? || op.RequestFull?
    ensures |Apply(st, op).slots| == |Book(st, ds, op)| == |ds|
    ensures BackedAt(Apply(st, op).slots[i], Book(st, ds, op)[i], px, py)
  {
    hide KeyedInk, MarkDirtyRect, AfterPart, AfterWrite, Repainted;
    if op.Write? && op.i == i {
      BackedWrite(st.slots[i], ds[i], op.pixels, op.r, px, py);
    } else if op.MarkPart? && op.i == i {
      BackedPart(st.slots[i], ds[i], op.r, px, py);
    }
  }

  /** The books account for every unmarked change, over every run. */
  lemma {:induction false} BooksAreBacked(st: State, ops: seq<Op>)
    requires Restart(st) && RunOk(st, ops)
    ensures AllBacked(Run(st, ops), Books(st, ops))
  {
    hide Apply, OpOk, InSync, Book, BackedAt;
    if ops != [] {
      BooksAreBacked(st, ops[..|ops| - 1]);
      RunKeepsSync(st, ops[..|ops| - 1]);
      BookKeepsBacked(Run(st, ops[..|ops| - 1]), Books(st, ops[..|ops| - 1]), ops[|ops| - 1]);
    }
  }

  /** With nothing owed, a pixel that differs is in the damage. */
  lemma ClearIsTold(s: Surf, px: int, py: int)
    requires BackedAt(s, Clear, px, py) && InPlace(s, px, py) && s.Differs(px, py)
    ensures Covered(DamageOf(s), px, py)
  {
    InkIsInside(s.view, px, py);
    hide KeyedInk, DamageOf, Covered;
    if !Covered(DamageOf(s), px, py) {
      if s.prev == Some(s.view.geom) {
        MarkedIsDamaged(s, px, py);
      } else {
        MovedIsDamaged(s, px, py);
      }
    }
  }

  /** The books are clear, or everything is repainted anyway. */
  predicate Settled(st: State, ds: seq<Debt>) {
    st.full || forall i :: 0 <= i < |ds| ==> ds[i] == Clear
  }

  lemma SettledIsTold(st: State, ds: seq<Debt>)
    requires InSync(st) && AllBacked(st, ds) && Settled(st, ds)
    ensures AllTold(st)
  {
    hide BackedAt, InPlace, DamageOf, ShownComposite, Surf.Differs;
    forall i, px, py | 0 <= i < |st.slots| && st.Screen().Has(px, py) && !Pending(st, px, py) && st.slots[i].Differs(px, py)
      ensures Covered(DamageOf(st.slots[i]), px, py)
    {
      ClearIsTold(st.slots[i], px, py);
    }
  }

  /** A caller that keeps the books sees the composite after every frame that finds them clear, whatever
      earlier frames found. */
  lemma CarefulCallersSeeComposite(st: State, ops: seq<Op>, k: nat)
    requires Restart(st) && RunOk(st, ops) && k < |ops| && ops[k].FrameOp?
    requires Settled(Run(st, ops[..k]), Books(st, ops[..k]))
    ensures ShowsComposite(Run(st, ops[..k + 1]), ops[k].bg)
  {
    RunPrefixOk(st, ops, k);
    hide RunOk, ShowsComposite, Run, Books, AllTold, InSync, AllBacked, Settled;
    RunKeepsSync(st, ops[..k]);
    BooksAreBacked(st, ops[..k]);
    SettledIsTold(Run(st, ops[..k]), Books(st, ops[..k]));
    EveryFrameShowsComposite(st, ops, k);
  }

  /** A pixel write, a mark or a change of placement of surface `i`. */
  predicate Draws(op: Op, i: nat) {
    (op.Write? && op.i == i) || (op.MarkPart? && op.i == i) || (op.MarkFull? && op.i == i) || (op.Restyle? && op.i == i)
  }

  /** Drawing into one surface, in any order. */
  predicate DrawsInto(body: seq<Op>, i: nat) {
    forall k :: 0 <= k < |body| ==> Draws(body[k], i)
  }

  lemma DrawStep(st: State, ds: seq<Debt>, op: Op, i: nat)
    requires |ds| == |st.slots| && i < |ds| && Draws(op, i)
    ensures var next := Apply(st, op);
            |next.slots| == |st.slots| && next.slots[i].prev == st.slots[i].prev
            && Book(st, ds, op) == ds[i := Book(st, ds, op)[i]]
            && (op.MarkFull? ==> Book(st, ds, op)[i] == Clear)
            && (ds[i] == Clear && st.slots[i].prev.None? ==> Book(st, ds, op)[i] == Clear)
  {
    hide Repainted, Intersect, Union;
    BookLength(st, ds, op);
    var next := Book(st, ds, op);
    assert forall j :: 0 <= j < |ds| && j != i ==> next[j] == ds[j];
  }

  /** Drawing into surface `i` leaves the books of the others alone, and a surface that no frame has seen owes
      nothing if it owed nothing. */
  lemma {:induction false} DrawingKeepsBooks(st: State, ops: seq<Op>, body: seq<Op>, i: nat)
    requires DrawsInto(body, i) && i < |Books(st, ops)|
    ensures var ds, now := Books(st, ops), Books(st, ops + body);
            |now| == |ds| && now == ds[i := now[i]]
    ensures Run(st, ops + body).slots[i].prev == Run(st, ops).slots[i].prev
    ensures Books(st, ops)[i] == Clear && Run(st, ops).slots[i].prev.None? ==> Books(st, ops + body)[i] == Clear
    ensures body != [] && body[|body| - 1].MarkFull? ==> Books(st, ops + body)[i] == Clear
  {
    hide Apply, Book;
    if body == [] {
      assert ops + body == ops;
    } else {
      var n := |body| - 1;
      var mid, op := ops + body[..n], body[n];
      DrawingKeepsBooks(st, ops, body[..n], i);
      assert (ops + body)[..|ops + body| - 1] == mid && (ops + body)[|ops + body| - 1] == op;
      DrawStep(Run(st, mid), Books(st, mid), op, i);
      var now := Books(st, ops + body);
      assert now == Book(Run(st, mid), Books(st, mid), op);
    }
  }

  /** Nothing is owed for any surface but, perhaps, surface `i`. */
  predicate ClearBut(ds: seq<Debt>, i: nat) {
    forall j :: 0 <= j < |ds| && j != i ==> ds[j] == Clear
  }

  lemma FrameAfter(st: State, run: seq<Op>, bg: Rgb)
    requires Restart(st) && RunOk(st, run + [FrameOp(bg)]) && forall j :: 0 <= j < |Books(st, run)| ==> Books(st, run)[j] == Clear
    ensures ShowsComposite(Run(st, run + [FrameOp(bg)]), bg)
  {
    var all := run + [FrameOp(bg)];
    assert all[..|run|] == run && all[..|run| + 1] == all;
    hide RunOk, Run, Books, ShowsComposite, Restart;
    CarefulCallersSeeComposite(st, all, |run|);
  }

  /**
   * A redraw settles a surface in every run: whatever was owed and marked for it, and whatever is then drawn
   * into it with or without marks, a full mark at the end makes the next frame show the composite, provided
   * nothing is owed for the others.
   */
  lemma RedrawSettles(st: State, ops: seq<Op>, body: seq<Op>, i: nat, bg: Rgb)
    requires DrawsInto(body, i) && i < |Books(st, ops)| && ClearBut(Books(st, ops), i)
    requires Restart(st) && RunOk(st, ops + (body + [MarkFull(i)]) + [FrameOp(bg)])
    ensures ShowsComposite(Run(st, ops + (body + [MarkFull(i)]) + [FrameOp(bg)]), bg)
  {
    var redraw := body + [MarkFull(i)];
    hide RunOk, Run, ShowsComposite, Restart;
    DrawingKeepsBooks(st, ops, redraw, i);
    assert redraw[|redraw| - 1].MarkFull?;
    FrameAfter(st, ops + redraw, bg);
  }

  /**
   * A new window settles in every run: a surface that no frame has seen, registered, placed and drawn into
   * with or without marks, is on the screen after the next frame, provided nothing is owed for the others.
   */
  lemma NewWindowSettles(st: State, ops: seq<Op>, s: Surf, body: seq<Op>, bg: Rgb)
    requires s.prev.None? && |Books(st, ops)| < MAX_SURFACES
    requires DrawsInto(body, |Books(st, ops)|) && ClearBut(Books(st, ops), |Books(st, ops)|)
    requires Restart(st) && RunOk(st, ops + [Add(s)] + body + [FrameOp(bg)])
    ensures ShowsComposite(Run(st, ops + [Add(s)] + body + [FrameOp(bg)]), bg)
  {
    var i, run := |Books(st, ops)|, ops + [Add(s)];
    AddOwesNothing(st, ops, s);
    hide RunOk, Run, ShowsComposite, Restart;
    DrawingKeepsBooks(st, run, body, i);
    FrameAfter(st, run + body, bg);
  }

  lemma AddOwesNothing(st: State, ops: seq<Op>, s: Surf)
    requires s.prev.None? && |Books(st, ops)| < MAX_SURFACES
    ensures var i, run := |Books(st, ops)|, ops + [Add(s)];
            Books(st, run) == Books(st, ops) + [Clear] && |Run(st, run).slots| == i + 1 && Run(st, run).slots[i].prev.None?
  {
    hide Repainted;
    var run := ops + [Add(s)];
    assert run[..|run| - 1] == ops && run[|run| - 1] == Add(s);
  }

  /** A registered surface that lies on the screen is told of exactly when it shows nothing or its first frame
      damages it whole. */
  lemma RegisteredIsToldIff(s: Surf, screen: Rect)
    requires s.Valid() && s.view.geom.Bounds().Inside(screen) && s.shown == NOTHING_SHOWN
    ensures (forall px, py :: screen.Has(px, py) && s.Differs(px, py) ==> Covered(DamageOf(s), px, py))
            <==> !s.view.geom.Contributes() || WillRepaint(s)
  {
    hide Blit.Coverage, DamageOf;
    var g := s.view.geom;
    if g.Contributes() {
      FirstFrameDamagesAllIff(s);
      forall px, py
        ensures screen.Has(px, py) && s.Differs(px, py) <==> g.Bounds().Has(px, py)
      {}
    }
  }

  // ---------------------------------------------------------------- a stale snapshot

  const BLACK := Rgb(0, 0, 0)
  const WHITE := Rgb(255, 255, 255)

  /** A white one-pixel surface that was shown once, removed, and is registered again unchanged. */
  function Returning(): (s: Surf)
    ensures s.Valid() && !WillRepaint(s)
  {
    Surf(View(Geom(0, 0, 1, 1, 0, 255, true, true, 0), [Pixel(255, 255, 255, 255)]), false, None,
         Some(Geom(0, 0, 1, 1, 0, 255, true, true, 0)), NOTHING_SHOWN)
  }

  /** Its snapshot still matches, so the next frame finds no damage and it stays invisible. */
  lemma StaleSnapshotHidesSurface(st: State)
    requires st.width == 1 && st.height == 1 && st.slots == [] && st.carry == [] && !st.full
    requires st.front(0, 0) == BLACK
    ensures !ShowsComposite(Frame(Register(st, Returning()), BLACK), BLACK)
  {
    var s := Returning();
    var reg := Register(st, s);
    assert reg.slots == [s] && DamageOf(s) == [];
    assert reg.slots[..0] == [];
    assert SlotDamage(reg.slots) == SlotDamage([]) + [] == [];
    assert FrameDamage(reg) == [];
    assert Repainted(reg) == [];
    var next := Frame(reg, BLACK);
    assert next.front(0, 0) == BLACK && next.slots == [s];
    assert Composite(Views(next.slots), BLACK, 0, 0) == WHITE by {
      assert s.view.Source().Texel(0, 0) == Pixel(255, 255, 255, 255);
      assert InkAt(s.view, 0, 0) == Some(Ink(WHITE, 255));
      assert Views(next.slots) == [s.view];
      InksOne(s.view, 0, 0);
      CompositeFromInks([s.view], BLACK, 0, 0);
      assert SortZ([Keyed(0, Ink(WHITE, 255))]) == [Keyed(0, Ink(WHITE, 255))];
    }
    assert next.Screen().Has(0, 0);
  }
}
