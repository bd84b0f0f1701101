/** The damage accumulator (src/compositor/damage.c): at most sixteen disjoint rectangles. */
module DamageList {
  import opened Rects

  const MAX_RECTS: nat := 16

  // ---------------------------------------------------------------- meaning of a list

  ghost predicate Covered(rs: seq<Rect>, px: int, py: int) {
    exists i :: 0 <= i < |rs| && rs[i].Has(px, py)
  }

  /** What the accumulator promises of its list. */
  ghost predicate Disjoint(rs: seq<Rect>) {
    && (forall i :: 0 <= i < |rs| ==> !rs[i].Empty())
    && (forall i, j :: 0 <= i < j < |rs| ==> !Overlaps(rs[i], rs[j]))
  }

  lemma CoveredAppend(a: seq<Rect>, b: seq<Rect>, px: int, py: int)
    ensures Covered(a + b, px, py) <==> Covered(a, px, py) || Covered(b, px, py)
  {
    if Covered(a, px, py) {
      var i :| 0 <= i < |a| && a[i].Has(px, py);
      assert (a + b)[i] == a[i];
    }
    if Covered(b, px, py) {
      var i :| 0 <= i < |b| && b[i].Has(px, py);
      assert (a + b)[|a| + i] == b[i];
    }
  }

  lemma CoveredSnoc(rs: seq<Rect>, px: int, py: int)
    requires rs != []
    ensures Covered(rs, px, py) <==> Covered(rs[..|rs| - 1], px, py) || rs[|rs| - 1].Has(px, py)
  {
    var n := |rs| - 1;
    if Covered(rs, px, py) && !rs[n].Has(px, py) {
      var i :| 0 <= i < |rs| && rs[i].Has(px, py);
      assert rs[..n][i].Has(px, py);
    }
  }

  lemma CoveredOne(r: Rect, px: int, py: int)
    ensures Covered([r], px, py) <==> r.Has(px, py)
  {
    assert [r][0] == r;
  }

  // ---------------------------------------------------------------- specification functions

  /** Index of the first rectangle that overlaps `r`, or the length when there is none. */
  function FirstOverlap(rs: seq<Rect>, r: Rect): (i: nat)
    ensures i <= |rs|
    ensures i < |rs| ==> Overlaps(rs[i], r)
    ensures forall j :: 0 <= j < i ==> !Overlaps(rs[j], r)
  {
    if rs == [] then 0
    else if Overlaps(rs[0], r) then 0
    else 1 + FirstOverlap(rs[1..], r)
  }

  function SwapRemove(rs: seq<Rect>, i: nat): (res: seq<Rect>)
    requires i < |rs|
    ensures |res| == |rs| - 1
  {
    rs[i := rs[|rs| - 1]][..|rs| - 1]
  }

  /** The greedy merge loop: swallow overlapping rectangles until none is left. */
  function Absorb(rs: seq<Rect>, r: Rect): (res: (seq<Rect>, Rect))
    ensures |res.0| <= |rs|
    ensures |res.0| == |rs| ==> res == (rs, r)
    ensures forall i :: 0 <= i < |res.0| ==> !Overlaps(res.0[i], res.1)
    decreases |rs|
  {
    var i := FirstOverlap(rs, r);
    if i == |rs| then (rs, r) else Absorb(SwapRemove(rs, i), Union(rs[i], r))
  }

  function UnionAll(u: Rect, rs: seq<Rect>): Rect {
    if rs == [] then u else Union(UnionAll(u, rs[..|rs| - 1]), rs[|rs| - 1])
  }

  function Added(rs: seq<Rect>, r: Rect): seq<Rect> {
    if r.Empty() then rs
    else
      var (kept, merged) := Absorb(rs, r);
      if |kept| >= MAX_RECTS then [UnionAll(merged, kept[1..])] else kept + [merged]
  }

  function Clipped(rs: seq<Rect>, bounds: Rect): seq<Rect> {
    if rs == [] then []
    else
      var out := Intersect(rs[|rs| - 1], bounds);
      Clipped(rs[..|rs| - 1], bounds) + (if out.Empty() then [] else [out])
  }

  function BboxOf(rs: seq<Rect>): Rect {
    if rs == [] then NOTHING else UnionAll(rs[0], rs[1..])
  }

  function AreaOf(rs: seq<Rect>): int {
    if rs == [] then 0 else AreaOf(rs[..|rs| - 1]) + rs[|rs| - 1].w * rs[|rs| - 1].h
  }

  // ---------------------------------------------------------------- merging

  lemma SwapRemoveElements(rs: seq<Rect>, i: nat)
    requires i < |rs|
    ensures forall j :: 0 <= j < |rs| && j != i ==> rs[j] in SwapRemove(rs, i)
    ensures Disjoint(rs) ==> Disjoint(SwapRemove(rs, i))
  {
    var out := SwapRemove(rs, i);
    forall j | 0 <= j < |rs| && j != i ensures rs[j] in out {
      assert out[if j == |rs| - 1 then i else j] == rs[j];
    }
    if Disjoint(rs) {
      forall a, b | 0 <= a < b < |out| ensures !Overlaps(out[a], out[b]) {
        assert !Overlaps(out[b], out[a]) || !Overlaps(out[a], out[b]);
      }
    }
  }

  lemma {:induction false} AbsorbKeepsDisjoint(rs: seq<Rect>, r: Rect)
    requires Disjoint(rs) && !r.Empty()
    ensures Disjoint(Absorb(rs, r).0) && !Absorb(rs, r).1.Empty()
    decreases |rs|
  {
    var i := FirstOverlap(rs, r);
    if i < |rs| {
      SwapRemoveElements(rs, i);
      AbsorbKeepsDisjoint(SwapRemove(rs, i), Union(rs[i], r));
    }
  }

  lemma {:induction false} AbsorbCovers(rs: seq<Rect>, r: Rect, px: int, py: int)
    requires Covered(rs, px, py) || r.Has(px, py)
    ensures Covered(Absorb(rs, r).0, px, py) || Absorb(rs, r).1.Has(px, py)
    decreases |rs|
  {
    var i := FirstOverlap(rs, r);
    if i < |rs| {
      SwapRemoveElements(rs, i);
      if Covered(rs, px, py) {
        var j :| 0 <= j < |rs| && rs[j].Has(px, py);
        if j != i {
          assert rs[j] in SwapRemove(rs, i);
        }
      }
      AbsorbCovers(SwapRemove(rs, i), Union(rs[i], r), px, py);
    }
  }

  lemma {:induction false} UnionAllIsBbox(u: Rect, rs: seq<Rect>)
    requires !u.Empty() && forall i :: 0 <= i < |rs| ==> !rs[i].Empty()
    ensures !UnionAll(u, rs).Empty() && u.Inside(UnionAll(u, rs))
    ensures forall i :: 0 <= i < |rs| ==> rs[i].Inside(UnionAll(u, rs))
    ensures forall c: Rect :: u.Inside(c) && (forall i :: 0 <= i < |rs| ==> rs[i].Inside(c)) ==> UnionAll(u, rs).Inside(c)
  {
    if rs != [] {
      var n := |rs| - 1;
      UnionAllIsBbox(u, rs[..n]);
      forall c: Rect | u.Inside(c) && (forall i :: 0 <= i < |rs| ==> rs[i].Inside(c))
        ensures UnionAll(u, rs).Inside(c)
      {
        assert forall i :: 0 <= i < n ==> rs[..n][i].Inside(c);
        assert UnionAll(u, rs[..n]).Inside(c) && rs[n].Inside(c);
      }
    }
  }

  /** Adding keeps the list disjoint, free of empty rectangles and within its sixteen slots. */
  lemma AddedIsDisjoint(rs: seq<Rect>, r: Rect)
    requires Disjoint(rs) && |rs| <= MAX_RECTS
    ensures Disjoint(Added(rs, r)) && |Added(rs, r)| <= MAX_RECTS
  {
    if !r.Empty() {
      AbsorbKeepsDisjoint(rs, r);
      var (kept, merged) := Absorb(rs, r);
      if |kept| >= MAX_RECTS {
        UnionAllIsBbox(merged, kept[1..]);
      }
    }
  }

  /** What a caller can test beforehand: there is a free slot, or the new rectangle touches an old
      one, or the old first rectangle lies in the bounding box of the others and the new one. */
  predicate Keeps(rs: seq<Rect>, r: Rect) {
    || r.Empty()
    || |rs| < MAX_RECTS
    || FirstOverlap(rs, r) < |rs|
    || rs[0].Inside(UnionAll(r, rs[1..]))
  }

  lemma AbsorbFullOnlyWithoutOverlap(rs: seq<Rect>, r: Rect)
    ensures |Absorb(rs, r).0| == |rs| <==> FirstOverlap(rs, r) == |rs|
  {
  }

  /** With `Keeps`, no damaged pixel is forgotten. */
  lemma AddedCovers(rs: seq<Rect>, r: Rect, px: int, py: int)
    requires Disjoint(rs) && |rs| <= MAX_RECTS && Keeps(rs, r)
    requires Covered(rs, px, py) || r.Has(px, py)
    ensures Covered(Added(rs, r), px, py)
  {
    if r.Empty() {
      return;
    }
    AbsorbCovers(rs, r, px, py);
    AbsorbFullOnlyWithoutOverlap(rs, r);
    var (kept, merged) := Absorb(rs, r);
    if |kept| >= MAX_RECTS {
      assert kept == rs && merged == r;
      UnionAllIsBbox(r, rs[1..]);
      var box := UnionAll(r, rs[1..]);
      if Covered(rs, px, py) {
        var j :| 0 <= j < |rs| && rs[j].Has(px, py);
        assert j > 0 ==> rs[j] == rs[1..][j - 1];
        assert rs[j].Inside(box);
      }
      assert Added(rs, r)[0].Has(px, py);
    } else {
      CoveredAppend(kept, [merged], px, py);
      assert merged.Has(px, py) ==> [merged][0].Has(px, py);
    }
  }

  lemma InsideMeansContained(a: Rect, b: Rect)
    requires !a.Empty() && forall px, py :: a.Has(px, py) ==> b.Has(px, py)
    ensures a.Inside(b)
  {
    assert a.Has(a.x, a.y) && a.Has(a.x + a.w - 1, a.y + a.h - 1);
  }

  /** The accumulator keeps every damaged pixel exactly when `Keeps` holds; the overflow branch
      otherwise drops pixels of the old first rectangle. */
  lemma AddedCoversIff(rs: seq<Rect>, r: Rect)
    requires Disjoint(rs) && |rs| <= MAX_RECTS
    ensures Keeps(rs, r) <==>
            forall px, py :: Covered(rs, px, py) || r.Has(px, py) ==> Covered(Added(rs, r), px, py)
  {
    if Keeps(rs, r) {
      forall px, py | Covered(rs, px, py) || r.Has(px, py) ensures Covered(Added(rs, r), px, py) {
        AddedCovers(rs, r, px, py);
      }
    } else if forall px, py :: Covered(rs, px, py) || r.Has(px, py) ==> Covered(Added(rs, r), px, py) {
      AbsorbFullOnlyWithoutOverlap(rs, r);
      var box := UnionAll(r, rs[1..]);
      assert Added(rs, r) == [box];
      forall px, py | rs[0].Has(px, py) ensures box.Has(px, py) {
        assert Covered(rs, px, py);
        assert Covered([box], px, py);
      }
      InsideMeansContained(rs[0], box);
      assert false;
    }
  }

  /** When nothing overlaps and a slot is free, nothing is over-cleared either. */
  lemma AddedExactly(rs: seq<Rect>, r: Rect, px: int, py: int)
    requires |rs| < MAX_RECTS && FirstOverlap(rs, r) == |rs|
    ensures Covered(Added(rs, r), px, py) <==> Covered(rs, px, py) || r.Has(px, py)
  {
    if !r.Empty() {
      CoveredAppend(rs, [r], px, py);
      assert r.Has(px, py) ==> [r][0].Has(px, py);
    }
  }

  function Spread(n: nat): (s: seq<Rect>)
    ensures |s| == n
    ensures forall i :: 0 <= i < n ==> s[i] == Rect(10 * i, 0, 1, 1)
  {
    seq(n, i => Rect(10 * i, 0, 1, 1))
  }

  /** Sixteen separate dots and a seventeenth: the first dot's pixel is no longer covered. */
  lemma OverflowDropsFirstRect()
    ensures var rs := Spread(MAX_RECTS); var r := Rect(160, 0, 1, 1);
            && Disjoint(rs) && |rs| == MAX_RECTS
            && Covered(rs, 0, 0) && !Covered(Added(rs, r), 0, 0)
  {
    var rs := Spread(MAX_RECTS);
    var r := Rect(160, 0, 1, 1);
    assert rs[0].Has(0, 0);
    var c := Rect(10, 0, 151, 1);
    assert Added(rs, r) == [UnionAll(r, rs[1..])] by {
      AbsorbFullOnlyWithoutOverlap(rs, r);
    }
    assert UnionAll(r, rs[1..]).Inside(c) by {
      UnionAllIsBbox(r, rs[1..]);
      assert forall i :: 0 <= i < |rs[1..]| ==> rs[1..][i].Inside(c);
    }
  }

  // ---------------------------------------------------------------- clipping

  lemma {:induction false} ClippedIsIntersection(rs: seq<Rect>, bounds: Rect, px: int, py: int)
    ensures Covered(Clipped(rs, bounds), px, py) <==> Covered(rs, px, py) && bounds.Has(px, py)
  {
    if rs != [] {
      var n := |rs| - 1;
      ClippedIsIntersection(rs[..n], bounds, px, py);
      var out := Intersect(rs[n], bounds);
      var tail := if out.Empty() then [] else [out];
      CoveredAppend(Clipped(rs[..n], bounds), tail, px, py);
      CoveredSnoc(rs, px, py);
      assert Covered(tail, px, py) <==> out.Has(px, py) by {
        if out.Has(px, py) {
          assert tail[0].Has(px, py);
        }
      }
    }
  }

  lemma LastRectApart(rs: seq<Rect>, px: int, py: int)
    requires Disjoint(rs) && rs != [] && Covered(rs[..|rs| - 1], px, py)
    ensures !rs[|rs| - 1].Has(px, py)
  {
    var n := |rs| - 1;
    var j :| 0 <= j < n && rs[..n][j].Has(px, py);
    assert !Overlaps(rs[j], rs[n]);
  }

  lemma ClippedTailApart(rs: seq<Rect>, bounds: Rect, r: Rect)
    requires Disjoint(rs) && rs != [] && r in Clipped(rs[..|rs| - 1], bounds) && !r.Empty()
    requires !Intersect(rs[|rs| - 1], bounds).Empty()
    ensures !Overlaps(r, Intersect(rs[|rs| - 1], bounds))
  {
    var n := |rs| - 1;
    var out := Intersect(rs[n], bounds);
    if Overlaps(r, out) {
      OverlapMeansSharedPixel(r, out);
      var px, py :| r.Has(px, py) && out.Has(px, py);
      ClippedIsIntersection(rs[..n], bounds, px, py);
      LastRectApart(rs, px, py);
      assert false;
    }
  }

  /** Clipping keeps the list disjoint and no longer, and puts every rectangle inside the bounds. */
  lemma {:induction false} ClippedIsDisjoint(rs: seq<Rect>, bounds: Rect)
    requires Disjoint(rs)
    ensures Disjoint(Clipped(rs, bounds)) && |Clipped(rs, bounds)| <= |rs|
    ensures forall i :: 0 <= i < |Clipped(rs, bounds)| ==> Clipped(rs, bounds)[i].Inside(bounds)
  {
    if rs != [] {
      var n := |rs| - 1;
      ClippedIsDisjoint(rs[..n], bounds);
      var head := Clipped(rs[..n], bounds);
      if !Intersect(rs[n], bounds).Empty() {
        forall i | 0 <= i < |head| ensures !Overlaps(head[i], Intersect(rs[n], bounds)) {
          ClippedTailApart(rs, bounds, head[i]);
        }
      }
    }
  }

  // ---------------------------------------------------------------- area

  lemma DisjointSum<T>(a: set<T>, b: set<T>)
    requires a !! b
    ensures |a + b| == |a| + |b|
  {
  }

  ghost function Line(x: int, y: int, w: nat): (s: set<(int, int)>)
    ensures |s| == w
    ensures forall px, py :: (px, py) in s <==> x <= px < x + w && py == y
  {
    if w == 0 then {} else {(x + w - 1, y)} + Line(x, y, w - 1)
  }

  /** The pixels of a rectangle, row by row. */
  ghost function Rows(x: int, y: int, w: nat, h: nat): (s: set<(int, int)>)
    ensures forall px, py :: (px, py) in s <==> x <= px < x + w && y <= py < y + h
    decreases h
  {
    if h == 0 then {} else Rows(x, y, w, h - 1) + Line(x, y + h - 1, w)
  }

  lemma AreaStep(w: nat, h: nat)
    requires h > 0
    ensures w * h == w * (h - 1) + w
  {
  }

  lemma RowsStep(x: int, y: int, w: nat, h: nat)
    requires h > 0
    ensures var above, last := Rows(x, y, w, h - 1), Line(x, y + h - 1, w);
            Rows(x, y, w, h) == above + last && forall p :: p in above ==> p !in last
  {
    var above, last := Rows(x, y, w, h - 1), Line(x, y + h - 1, w);
    assert Rows(x, y, w, h) == above + last;
    hide Rows, Line;
    forall p | p in above ensures p !in last {
      assert p == (p.0, p.1);
    }
  }

  lemma {:induction false} RowsCount(x: int, y: int, w: nat, h: nat)
    ensures |Rows(x, y, w, h)| == w * h
    decreases h
  {
    hide *;
    if h == 0 {
      NoRows(x, y, w);
    } else {
      RowsCount(x, y, w, h - 1);
      RowsStep(x, y, w, h);
      DisjointSum(Rows(x, y, w, h - 1), Line(x, y + h - 1, w));
      AreaStep(w, h);
    }
  }

  lemma NoRows(x: int, y: int, w: nat)
    ensures |Rows(x, y, w, 0)| == 0 == w * 0
  {}

  ghost function PixelsOf(r: Rect): (s: set<(int, int)>)
    ensures forall px, py :: (px, py) in s <==> r.Has(px, py)
  {
    if r.Empty() then {} else Rows(r.x, r.y, r.w, r.h)
  }

  /** All covered pixels of a list. */
  ghost function CoveredPixels(rs: seq<Rect>): set<(int, int)> {
    if rs == [] then {} else CoveredPixels(rs[..|rs| - 1]) + PixelsOf(rs[|rs| - 1])
  }

  lemma {:induction false} CoveredPixelsAre(rs: seq<Rect>, px: int, py: int)
    ensures (px, py) in CoveredPixels(rs) <==> Covered(rs, px, py)
  {
    if rs != [] {
      CoveredPixelsAre(rs[..|rs| - 1], px, py);
      CoveredSnoc(rs, px, py);
      assert (px, py) in PixelsOf(rs[|rs| - 1]) <==> rs[|rs| - 1].Has(px, py);
    }
  }

  lemma PixelsCount(r: Rect)
    requires !r.Empty()
    ensures |PixelsOf(r)| == r.w * r.h
  {
    RowsCount(r.x, r.y, r.w, r.h);
  }

  lemma LastRectAddsItsArea(rs: seq<Rect>, head: set<(int, int)>, last: set<(int, int)>)
    requires Disjoint(rs) && rs != []
    requires forall px, py :: (px, py) in head ==> Covered(rs[..|rs| - 1], px, py)
    requires forall px, py :: (px, py) in last ==> rs[|rs| - 1].Has(px, py)
    ensures |head + last| == |head| + |last|
  {
    forall p | p in head ensures p !in last {
      assert p == (p.0, p.1);
      LastRectApart(rs, p.0, p.1);
    }
    DisjointSum(head, last);
  }

  /** Over a disjoint list the sum of the areas counts each covered pixel exactly once. */
  lemma {:induction false} AreaCountsCoveredPixels(rs: seq<Rect>)
    requires Disjoint(rs)
    ensures |CoveredPixels(rs)| == AreaOf(rs)
  {
    hide PixelsOf;
    if rs != [] {
      var n := |rs| - 1;
      AreaCountsCoveredPixels(rs[..n]);
      forall px, py | (px, py) in CoveredPixels(rs[..n]) ensures Covered(rs[..n], px, py) {
        CoveredPixelsAre(rs[..n], px, py);
      }
      LastRectAddsItsArea(rs, CoveredPixels(rs[..n]), PixelsOf(rs[n]));
      PixelsCount(rs[n]);
    }
  }

  // ---------------------------------------------------------------- the C structure

  class Damage {
    const rects: array<Rect>
    var count: nat

    ghost predicate Valid()
      reads this, rects
    {
      rects.Length == MAX_RECTS && count <= MAX_RECTS
    }

    ghost function List(): seq<Rect>
      requires Valid()
      reads this, rects
    {
      rects[..count]
    }

    constructor ()
      ensures Valid() && fresh(rects)
      ensures List() == []
    {
      rects := new Rect[MAX_RECTS](_ => NOTHING);
      count := 0;
    }

    method Reset()
      requires Valid()
      modifies this
      ensures Valid() && List() == []
    {
      count := 0;
    }

    /** One scan of the merge loop: swallow the first overlapping rectangle, if any. */
    method MergeOnce(r: Rect) returns (merged: bool, u: Rect)
      requires Valid()
      modifies this, rects
      ensures Valid()
      ensures var i := FirstOverlap(old(List()), r); var n := old(count);
              if i == n then !merged && u == r && List() == old(List())
              else merged && u == Union(old(rects[i]), r) && List() == SwapRemove(old(List()), i)
    {
      ghost var was := List();
      var i := 0;
      while i < count
        invariant i <= count && FirstOverlap(was, r) >= i
        invariant count == old(count) && List() == was
      {
        if Overlaps(rects[i], r) {
          assert was[i] == rects[i] && FirstOverlap(was, r) == i;
          u := Union(rects[i], r);
          rects[i] := rects[count - 1];
          count := count - 1;
          assert List() == SwapRemove(was, i);
          return true, u;
        }
        assert was[i] == rects[i];
        i := i + 1;
      }
      return false, r;
    }

    /** The overflow branch: one rectangle around `r` and all but the first. */
    method Collapse(r: Rect)
      requires Valid() && count == MAX_RECTS
      modifies this, rects
      ensures Valid()
      ensures List() == [UnionAll(r, old(List())[1..])]
    {
      hide Union;
      ghost var was := List();
      rects[0] := r;
      var i := 1;
      while i < count
        invariant 1 <= i <= count == MAX_RECTS
        invariant rects[0] == UnionAll(r, was[1..i])
        invariant forall k :: 1 <= k < MAX_RECTS ==> rects[k] == was[k]
      {
        assert was[1..i + 1][..i - 1] == was[1..i];
        rects[0] := Union(rects[0], rects[i]);
        i := i + 1;
      }
      assert was[1..i] == was[1..];
      count := 1;
    }

    method Add(r0: Rect)
      requires Valid()
      modifies this, rects
      ensures Valid()
      ensures List() == Added(old(List()), r0)
    {
      hide Union;
      hide FirstOverlap;
      hide SwapRemove;
      hide UnionAll;
      if r0.Empty() {
        return;
      }
      var r := r0;
      var merged := true;
      while merged
        invariant Valid() && Absorb(List(), r) == Absorb(old(List()), r0)
        invariant !merged ==> FirstOverlap(List(), r) == count
        decreases count, merged
      {
        merged, r := MergeOnce(r);
      }
      assert Absorb(List(), r) == (List(), r);
      if count >= MAX_RECTS {
        Collapse(r);
        return;
      }
      ghost var kept := List();
      rects[count] := r;
      count := count + 1;
      assert List() == kept + [r];
    }

    method Clip(bounds: Rect)
      requires Valid()
      modifies this, rects
      ensures Valid()
      ensures List() == Clipped(old(List()), bounds)
    {
      hide Intersect;
      ghost var was := List();
      var w, i := 0, 0;
      while i < count
        invariant 0 <= w <= i <= count == old(count)
        invariant rects[..w] == Clipped(was[..i], bounds)
        invariant forall k :: i <= k < count ==> rects[k] == was[k]
      {
        assert was[..i + 1][..i] == was[..i];
        var out := Intersect(rects[i], bounds);
        if !out.Empty() {
          rects[w] := out;
          w := w + 1;
          assert rects[..w] == rects[..w - 1] + [out];
        }
        i := i + 1;
      }
      assert was[..i] == was;
      count := w;
    }

    method Bbox() returns (u: Rect)
      requires Valid()
      ensures u == BboxOf(List())
    {
      if count == 0 {
        return NOTHING;
      }
      u := rects[0];
      ghost var l := List();
      for i := 1 to count
        invariant u == UnionAll(rects[0], l[1..i])
      {
        assert l[1..i + 1][..i - 1] == l[1..i];
        u := Union(u, rects[i]);
      }
      assert l[1..count] == l[1..];
    }

    method AreaSum() returns (s: int)
      requires Valid()
      ensures s == AreaOf(List())
    {
      s := 0;
      ghost var l := List();
      for i := 0 to count
        invariant s == AreaOf(l[..i])
      {
        assert l[..i + 1][..i] == l[..i];
        s := s + rects[i].w * rects[i].h;
      }
      assert l[..count] == l;
    }
  }
}
