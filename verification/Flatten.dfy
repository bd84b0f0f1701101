/** Curve flattening (src/compositor/path_raster.c): the polyline follows the exact curve. */
module Flatten {
  import opened Raster

  /** C division by two: towards zero. */
  function Half(v: int): int {
    if v >= 0 then v / 2 else -((-v) / 2)
  }

  function Mid(a: Pt, b: Pt): Pt {
    Pt(Half(a.x + b.x), Half(a.y + b.y))
  }

  datatype Cubic = Cubic(p0: Pt, p1: Pt, p2: Pt, p3: Pt)

  datatype Quad = Quad(p0: Pt, p1: Pt, p2: Pt)

  function Left(c: Cubic): Cubic {
    var p01, p12, p23 := Mid(c.p0, c.p1), Mid(c.p1, c.p2), Mid(c.p2, c.p3);
    var p012, p123 := Mid(p01, p12), Mid(p12, p23);
    Cubic(c.p0, p01, p012, Mid(p012, p123))
  }

  function Right(c: Cubic): Cubic {
    var p01, p12, p23 := Mid(c.p0, c.p1), Mid(c.p1, c.p2), Mid(c.p2, c.p3);
    var p012, p123 := Mid(p01, p12), Mid(p12, p23);
    Cubic(Mid(p012, p123), p123, p23, c.p3)
  }

  /** Twice the area spanned by the chord and the way from its start to `p`. */
  function Cross(a: Pt, b: Pt, p: Pt): int {
    (p.x - a.x) * (b.y - a.y) - (p.y - a.y) * (b.x - a.x)
  }

  function Chord2(a: Pt, b: Pt): int {
    (b.x - a.x) * (b.x - a.x) + (b.y - a.y) * (b.y - a.y)
  }

  /** Close enough to the chord to stop subdividing: a chord shorter than a pixel, or control points
      within six sixteenths of a pixel of its line. */
  predicate Flat(c: Cubic) {
    var l2 := Chord2(c.p0, c.p3);
    var c1, c2 := Cross(c.p0, c.p3, c.p1), Cross(c.p0, c.p3, c.p2);
    l2 < UNIT * UNIT || (c1 * c1 <= 36 * l2 && c2 * c2 <= 36 * l2)
  }

  const DEPTH: nat := 15

  /** The vertices of a flattened cubic, its start point left out. */
  function CubicPoints(c: Cubic, depth: nat): seq<Pt>
    requires depth <= DEPTH
    decreases DEPTH - depth
  {
    if depth == DEPTH || Flat(c) then [c.p3]
    else CubicPoints(Left(c), depth + 1) + CubicPoints(Right(c), depth + 1)
  }

  /** The curve parameter at which each vertex was taken. */
  function CubicParams(c: Cubic, depth: nat, a: real, b: real): (ts: seq<real>)
    requires depth <= DEPTH
    ensures |ts| == |CubicPoints(c, depth)| > 0
    decreases DEPTH - depth
  {
    if depth == DEPTH || Flat(c) then [b]
    else
      var m := (a + b) / 2.0;
      CubicParams(Left(c), depth + 1, a, m) + CubicParams(Right(c), depth + 1, m, b)
  }

  // ---------------------------------------------------------------- the exact curve

  /** The control values of one coordinate. */
  datatype Coef = Coef(a0: real, a1: real, a2: real, a3: real)

  function B(k: Coef, t: real): real {
    var u := 1.0 - t;
    u * u * u * k.a0 + 3.0 * (u * u * t) * k.a1 + 3.0 * (u * t * t) * k.a2 + t * t * t * k.a3
  }

  function LeftCoef(k: Coef): Coef {
    Coef(k.a0, (k.a0 + k.a1) / 2.0, (k.a0 + 2.0 * k.a1 + k.a2) / 4.0, (k.a0 + 3.0 * k.a1 + 3.0 * k.a2 + k.a3) / 8.0)
  }

  function RightCoef(k: Coef): Coef {
    Coef((k.a0 + 3.0 * k.a1 + 3.0 * k.a2 + k.a3) / 8.0, (k.a1 + 2.0 * k.a2 + k.a3) / 4.0, (k.a2 + k.a3) / 2.0, k.a3)
  }

  lemma LeftHalf(k: Coef, s: real)
    ensures B(LeftCoef(k), s) == B(k, s / 2.0)
  {}

  /** The curve run backwards. */
  function Rev(k: Coef): Coef {
    Coef(k.a3, k.a2, k.a1, k.a0)
  }

  lemma Backwards(k: Coef, t: real)
    ensures B(Rev(k), 1.0 - t) == B(k, t)
  {}

  lemma RightHalf(k: Coef, s: real)
    ensures B(RightCoef(k), s) == B(k, (1.0 + s) / 2.0)
  {
    var l := LeftCoef(Rev(k));
    assert RightCoef(k) == Rev(l);
    Backwards(Rev(l), s);
    LeftHalf(Rev(k), 1.0 - s);
    Backwards(k, (1.0 + s) / 2.0);
    hide B;
    assert Rev(Rev(l)) == l;
    assert 1.0 - (1.0 + s) / 2.0 == (1.0 - s) / 2.0;
  }

  /** `k` is the part of `whole` between the parameters `a` and `b`. */
  ghost predicate Part(k: Coef, whole: Coef, a: real, b: real) {
    forall s: real :: B(k, s) == B(whole, a + s * (b - a))
  }

  lemma PartLeft(k: Coef, whole: Coef, a: real, b: real)
    requires Part(k, whole, a, b)
    ensures Part(LeftCoef(k), whole, a, (a + b) / 2.0)
  {
    hide B;
    forall s: real
      ensures B(LeftCoef(k), s) == B(whole, a + s * ((a + b) / 2.0 - a))
    {
      LeftHalf(k, s);
      assert a + s / 2.0 * (b - a) == a + s * ((a + b) / 2.0 - a);
    }
  }

  lemma PartRight(k: Coef, whole: Coef, a: real, b: real)
    requires Part(k, whole, a, b)
    ensures Part(RightCoef(k), whole, (a + b) / 2.0, b)
  {
    hide B;
    forall s: real
      ensures B(RightCoef(k), s) == B(whole, (a + b) / 2.0 + s * (b - (a + b) / 2.0))
    {
      RightHalf(k, s);
      assert a + (1.0 + s) / 2.0 * (b - a) == (a + b) / 2.0 + s * (b - (a + b) / 2.0);
    }
  }

  // ---------------------------------------------------------------- rounding

  predicate Near(v: int, x: real, e: real) {
    -e <= v as real - x <= e
  }

  lemma HalfNear(u: int, v: int, x: real, y: real, e: real)
    requires Near(u, x, e) && Near(v, y, e)
    ensures Near(Half(u + v), (x + y) / 2.0, e + 0.5)
  {
    var h := Half(u + v);
    assert -1 <= 2 * h - (u + v) <= 1;
    assert -1.0 <= 2.0 * (h as real) - (u as real + v as real) <= 1.0;
  }

  /** One coordinate of a cubic, near exact control values. */
  predicate NearCoef(v0: int, v1: int, v2: int, v3: int, k: Coef, e: real) {
    Near(v0, k.a0, e) && Near(v1, k.a1, e) && Near(v2, k.a2, e) && Near(v3, k.a3, e)
  }

  /** Halving one coordinate costs at most one and a half units. */
  lemma SplitNear(v0: int, v1: int, v2: int, v3: int, k: Coef, e: real)
    requires NearCoef(v0, v1, v2, v3, k, e) && e >= 0.0
    ensures var v01, v12, v23 := Half(v0 + v1), Half(v1 + v2), Half(v2 + v3);
            var v012, v123 := Half(v01 + v12), Half(v12 + v23);
            var m := Half(v012 + v123);
            NearCoef(v0, v01, v012, m, LeftCoef(k), e + 1.5) && NearCoef(m, v123, v23, v3, RightCoef(k), e + 1.5)
  {
    hide *;
    var v01, v12, v23 := Half(v0 + v1), Half(v1 + v2), Half(v2 + v3);
    var x01, x12, x23 := (k.a0 + k.a1) / 2.0, (k.a1 + k.a2) / 2.0, (k.a2 + k.a3) / 2.0;
    var v012, v123, x012, x123 := Half(v01 + v12), Half(v12 + v23), (x01 + x12) / 2.0, (x12 + x23) / 2.0;
    NearParts(v0, v1, v2, v3, k, e);
    HalfNear(v0, v1, k.a0, k.a1, e);
    HalfNear(v1, v2, k.a1, k.a2, e);
    HalfNear(v2, v3, k.a2, k.a3, e);
    HalfNear(v01, v12, x01, x12, e + 0.5);
    HalfNear(v12, v23, x12, x23, e + 0.5);
    HalfNear(v012, v123, x012, x123, e + 1.0);
    Widen(v0, k.a0, e, e + 1.5);
    Widen(v3, k.a3, e, e + 1.5);
    Widen(v01, x01, e + 0.5, e + 1.5);
    Widen(v23, x23, e + 0.5, e + 1.5);
    Widen(v012, x012, e + 1.0, e + 1.5);
    Widen(v123, x123, e + 1.0, e + 1.5);
    CoefMids(k);
    NearWhole(v0, v01, v012, Half(v012 + v123), LeftCoef(k), e + 1.5);
    NearWhole(Half(v012 + v123), v123, v23, v3, RightCoef(k), e + 1.5);
  }

  lemma Widen(v: int, x: real, e: real, f: real)
    requires Near(v, x, e) && e <= f
    ensures Near(v, x, f)
  {}

  lemma NearParts(v0: int, v1: int, v2: int, v3: int, k: Coef, e: real)
    requires NearCoef(v0, v1, v2, v3, k, e)
    ensures Near(v0, k.a0, e) && Near(v1, k.a1, e) && Near(v2, k.a2, e) && Near(v3, k.a3, e)
  {}

  lemma NearWhole(v0: int, v1: int, v2: int, v3: int, k: Coef, e: real)
    requires Near(v0, k.a0, e) && Near(v1, k.a1, e) && Near(v2, k.a2, e) && Near(v3, k.a3, e)
    ensures NearCoef(v0, v1, v2, v3, k, e)
  {}

  /** The exact halves are made of repeated midpoints too. */
  lemma CoefMids(k: Coef)
    ensures var x01, x12, x23 := (k.a0 + k.a1) / 2.0, (k.a1 + k.a2) / 2.0, (k.a2 + k.a3) / 2.0;
            var x012, x123 := (x01 + x12) / 2.0, (x12 + x23) / 2.0;
            LeftCoef(k) == Coef(k.a0, x01, x012, (x012 + x123) / 2.0)
            && RightCoef(k) == Coef((x012 + x123) / 2.0, x123, x23, k.a3)
  {}

  predicate Follows(c: Cubic, kx: Coef, ky: Coef, e: real) {
    NearCoef(c.p0.x, c.p1.x, c.p2.x, c.p3.x, kx, e) && NearCoef(c.p0.y, c.p1.y, c.p2.y, c.p3.y, ky, e)
  }

  lemma SplitFollows(c: Cubic, kx: Coef, ky: Coef, e: real)
    requires Follows(c, kx, ky, e) && e >= 0.0
    ensures Follows(Left(c), LeftCoef(kx), LeftCoef(ky), e + 1.5)
    ensures Follows(Right(c), RightCoef(kx), RightCoef(ky), e + 1.5)
  {
    hide NearCoef, LeftCoef, RightCoef, Half, Near;
    SplitNear(c.p0.x, c.p1.x, c.p2.x, c.p3.x, kx, e);
    SplitNear(c.p0.y, c.p1.y, c.p2.y, c.p3.y, ky, e);
  }

  // ---------------------------------------------------------------- the polyline follows the curve

  /** Vertex `p` is within `e` of the exact curve at parameter `t`. */
  predicate OnCurve(p: Pt, kx: Coef, ky: Coef, t: real, e: real) {
    Near(p.x, B(kx, t), e) && Near(p.y, B(ky, t), e)
  }

  lemma EndOnCurve(c: Cubic, kx: Coef, ky: Coef, wx: Coef, wy: Coef, a: real, b: real, e: real)
    requires Follows(c, kx, ky, e) && Part(kx, wx, a, b) && Part(ky, wy, a, b)
    ensures OnCurve(c.p3, wx, wy, b, e)
  {
    assert B(kx, 1.0) == kx.a3 && B(ky, 1.0) == ky.a3;
    hide B;
    assert a + 1.0 * (b - a) == b;
  }

  /** The error budget left for the levels below `depth`. */
  function Budget(depth: nat): real
    requires depth <= DEPTH
  {
    1.5 * (DEPTH - depth) as real
  }

  lemma {:induction false} VerticesFollow(c: Cubic, depth: nat, kx: Coef, ky: Coef, wx: Coef, wy: Coef, a: real, b: real, e: real, i: nat)
    requires depth <= DEPTH && e >= 0.0 && Follows(c, kx, ky, e) && Part(kx, wx, a, b) && Part(ky, wy, a, b)
    requires i < |CubicPoints(c, depth)|
    ensures OnCurve(CubicPoints(c, depth)[i], wx, wy, CubicParams(c, depth, a, b)[i], e + Budget(depth))
    decreases DEPTH - depth
  {
    hide Follows, Part, Flat, Left, Right, LeftCoef, RightCoef, B;
    if depth == DEPTH || Flat(c) {
      EndOnCurve(c, kx, ky, wx, wy, a, b, e);
    } else {
      var m := (a + b) / 2.0;
      SplitFollows(c, kx, ky, e);
      PartLeft(kx, wx, a, b);
      PartLeft(ky, wy, a, b);
      PartRight(kx, wx, a, b);
      PartRight(ky, wy, a, b);
      var n := |CubicPoints(Left(c), depth + 1)|;
      assert n == |CubicParams(Left(c), depth + 1, a, m)|;
      if i < n {
        VerticesFollow(Left(c), depth + 1, LeftCoef(kx), LeftCoef(ky), wx, wy, a, m, e + 1.5, i);
      } else {
        VerticesFollow(Right(c), depth + 1, RightCoef(kx), RightCoef(ky), wx, wy, m, b, e + 1.5, i - n);
      }
    }
  }

  /** Strictly increasing, after `a` and up to exactly `b`. */
  ghost predicate Rising(ts: seq<real>, a: real, b: real) {
    ts != [] && ts[|ts| - 1] == b
    && (forall i :: 0 <= i < |ts| ==> a < ts[i] <= b)
    && forall i, j :: 0 <= i < j < |ts| ==> ts[i] < ts[j]
  }

  lemma RisingJoin(x: seq<real>, y: seq<real>, a: real, m: real, b: real)
    requires Rising(x, a, m) && Rising(y, m, b) && a < m < b
    ensures Rising(x + y, a, b)
  {
    var z := x + y;
    forall i, j | 0 <= i < j < |z|
      ensures z[i] < z[j]
    {
      if i < |x| <= j {
        assert z[i] <= m < y[j - |x|];
      }
    }
  }

  lemma {:induction false} ParamsRise(c: Cubic, depth: nat, a: real, b: real)
    requires depth <= DEPTH && a < b
    ensures Rising(CubicParams(c, depth, a, b), a, b)
    decreases DEPTH - depth
  {
    hide Flat, Left, Right, CubicPoints;
    if !(depth == DEPTH || Flat(c)) {
      hide Rising;
      var m := (a + b) / 2.0;
      ParamsRise(Left(c), depth + 1, a, m);
      ParamsRise(Right(c), depth + 1, m, b);
      RisingJoin(CubicParams(Left(c), depth + 1, a, m), CubicParams(Right(c), depth + 1, m, b), a, m, b);
    }
  }

  function Exact(v0: int, v1: int, v2: int, v3: int): Coef {
    Coef(v0 as real, v1 as real, v2 as real, v3 as real)
  }

  /**
   * Every vertex of the polyline lies within 22.5 sixteenths of a pixel of the exact curve, at
   * parameters that increase strictly along the polyline and end at 1.
   */
  lemma PolylineFollowsCurve(c: Cubic, i: nat)
    requires i < |CubicPoints(c, 0)|
    ensures var ts := CubicParams(c, 0, 0.0, 1.0);
            Rising(ts, 0.0, 1.0)
            && OnCurve(CubicPoints(c, 0)[i], Exact(c.p0.x, c.p1.x, c.p2.x, c.p3.x),
                       Exact(c.p0.y, c.p1.y, c.p2.y, c.p3.y), ts[i], 22.5)
  {
    var kx, ky := Exact(c.p0.x, c.p1.x, c.p2.x, c.p3.x), Exact(c.p0.y, c.p1.y, c.p2.y, c.p3.y);
    ParamsRise(c, 0, 0.0, 1.0);
    assert Follows(c, kx, ky, 0.0);
    WholeIsPart(kx);
    WholeIsPart(ky);
    VerticesFollow(c, 0, kx, ky, kx, ky, 0.0, 1.0, 0.0, i);
    hide OnCurve, CubicPoints, CubicParams, Rising, Exact;
    assert 0.0 + Budget(0) == 22.5;
  }

  lemma WholeIsPart(k: Coef)
    ensures Part(k, k, 0.0, 1.0)
  {
    hide B;
    forall s: real
      ensures B(k, s) == B(k, 0.0 + s * (1.0 - 0.0))
    {
      assert 0.0 + s * (1.0 - 0.0) == s;
    }
  }

  // ---------------------------------------------------------------- the box of the control points

  predicate Inside(p: Pt, lo: Pt, hi: Pt) {
    lo.x <= p.x <= hi.x && lo.y <= p.y <= hi.y
  }

  lemma MidInside(a: Pt, b: Pt, lo: Pt, hi: Pt)
    requires Inside(a, lo, hi) && Inside(b, lo, hi)
    ensures Inside(Mid(a, b), lo, hi)
  {}

  predicate CubicInside(c: Cubic, lo: Pt, hi: Pt) {
    Inside(c.p0, lo, hi) && Inside(c.p1, lo, hi) && Inside(c.p2, lo, hi) && Inside(c.p3, lo, hi)
  }

  lemma SplitInside(c: Cubic, lo: Pt, hi: Pt)
    requires CubicInside(c, lo, hi)
    ensures CubicInside(Left(c), lo, hi) && CubicInside(Right(c), lo, hi)
  {
    var p01, p12, p23 := Mid(c.p0, c.p1), Mid(c.p1, c.p2), Mid(c.p2, c.p3);
    MidInside(c.p0, c.p1, lo, hi);
    MidInside(c.p1, c.p2, lo, hi);
    MidInside(c.p2, c.p3, lo, hi);
    MidInside(p01, p12, lo, hi);
    MidInside(p12, p23, lo, hi);
    MidInside(Mid(p01, p12), Mid(p12, p23), lo, hi);
    hide Mid, Inside;
  }

  /** Rounded midpoints never leave the box of the control points. */
  lemma {:induction false} VerticesInside(c: Cubic, depth: nat, lo: Pt, hi: Pt, i: nat)
    requires depth <= DEPTH && CubicInside(c, lo, hi) && i < |CubicPoints(c, depth)|
    ensures Inside(CubicPoints(c, depth)[i], lo, hi)
    decreases DEPTH - depth
  {
    hide Flat, Left, Right, Inside;
    if !(depth == DEPTH || Flat(c)) {
      SplitInside(c, lo, hi);
      hide CubicInside;
      var n := |CubicPoints(Left(c), depth + 1)|;
      if i < n {
        VerticesInside(Left(c), depth + 1, lo, hi, i);
      } else {
        VerticesInside(Right(c), depth + 1, lo, hi, i - n);
      }
    }
  }

  // ---------------------------------------------------------------- where subdivision stops

  /** How far the curve at `t` is off the line of the chord, times the chord's length. */
  function OffChord(c: Cubic, t: real): real {
    (B(Exact(c.p0.x, c.p1.x, c.p2.x, c.p3.x), t) - c.p0.x as real) * (c.p3.y - c.p0.y) as real
    - (B(Exact(c.p0.y, c.p1.y, c.p2.y, c.p3.y), t) - c.p0.y as real) * (c.p3.x - c.p0.x) as real
  }

  function Weight1(t: real): real {
    3.0 * ((1.0 - t) * (1.0 - t) * t)
  }

  function Weight2(t: real): real {
    3.0 * ((1.0 - t) * t * t)
  }

  lemma FromStart(k: Coef, t: real)
    ensures B(k, t) - k.a0 == Weight1(t) * (k.a1 - k.a0) + Weight2(t) * (k.a2 - k.a0) + t * t * t * (k.a3 - k.a0)
  {
    hide *;
    var u3 := (1.0 - t) * (1.0 - t) * (1.0 - t);
    BezierWeights(k, t);
    WeightsSum(t);
    Regroup(u3, Weight1(t), Weight2(t), t * t * t, k.a0, k.a1, k.a2, k.a3);
  }

  lemma BezierWeights(k: Coef, t: real)
    ensures B(k, t) == (1.0 - t) * (1.0 - t) * (1.0 - t) * k.a0 + Weight1(t) * k.a1 + Weight2(t) * k.a2 + t * t * t * k.a3
  {
    var u := 1.0 - t;
    assert Weight1(t) == 3.0 * (u * u * t) && Weight2(t) == 3.0 * (u * t * t);
    hide Weight1, Weight2;
  }

  lemma WeightsSum(t: real)
    ensures (1.0 - t) * (1.0 - t) * (1.0 - t) + Weight1(t) + Weight2(t) + t * t * t == 1.0
  {}

  lemma Regroup(w0: real, w1: real, w2: real, w3: real, a0: real, a1: real, a2: real, a3: real)
    requires w0 + w1 + w2 + w3 == 1.0
    ensures w0 * a0 + w1 * a1 + w2 * a2 + w3 * a3 - a0 == w1 * (a1 - a0) + w2 * (a2 - a0) + w3 * (a3 - a0)
  {
    assert (w0 + w1 + w2 + w3) * a0 == a0;
    assert (w0 + w1 + w2 + w3) * a0 == w0 * a0 + w1 * a0 + w2 * a0 + w3 * a0;
  }

  lemma SquareNotNegative(x: real)
    ensures x * x >= 0.0
  {
    if x < 0.0 {
      ProductNotNegative(-x, -x);
      assert -x * -x == x * x;
    } else {
      ProductNotNegative(x, x);
    }
  }

  lemma WeightsFit(t: real)
    requires 0.0 <= t <= 1.0
    ensures Weight1(t) >= 0.0 && Weight2(t) >= 0.0 && Weight1(t) + Weight2(t) <= 1.0
  {
    var u := 1.0 - t;
    var p := u * t;
    ProductNotNegative(u, t);
    ProductNotNegative(u, p);
    ProductNotNegative(t, p);
    assert u * u * t == u * p && u * t * t == t * p;
    assert u * p + t * p == (u + t) * p;
    AtMostQuarter(t);
  }

  lemma ProductNotNegative(x: real, y: real)
    requires x >= 0.0 && y >= 0.0
    ensures x * y >= 0.0
  {}

  lemma AtMostQuarter(t: real)
    ensures (1.0 - t) * t <= 0.25
  {
    SquareNotNegative(t - 0.5);
    assert (t - 0.5) * (t - 0.5) == t * t - t + 0.25;
    assert (1.0 - t) * t == t - t * t;
  }

  lemma Weighted(w1: real, w2: real, w3: real, x1: real, x2: real, x3: real, y1: real, y2: real, y3: real,
                 x: real, y: real, c1: real, c2: real)
    requires x == w1 * x1 + w2 * x2 + w3 * x3 && y == w1 * y1 + w2 * y2 + w3 * y3
    requires c1 == x1 * y3 - y1 * x3 && c2 == x2 * y3 - y2 * x3
    ensures x * y3 - y * x3 == w1 * c1 + w2 * c2
  {
    assert x * y3 == w1 * (x1 * y3) + w2 * (x2 * y3) + w3 * (x3 * y3);
    assert y * x3 == w1 * (y1 * x3) + w2 * (y2 * x3) + w3 * (y3 * x3);
    assert w1 * c1 == w1 * (x1 * y3) - w1 * (y1 * x3);
    assert w2 * c2 == w2 * (x2 * y3) - w2 * (y2 * x3);
  }

  /** The offset is a weighted sum of the two control offsets. */
  lemma OffChordIs(c: Cubic, t: real)
    ensures OffChord(c, t) == Weight1(t) * Cross(c.p0, c.p3, c.p1) as real + Weight2(t) * Cross(c.p0, c.p3, c.p2) as real
  {
    hide *;
    var kx, ky := Exact(c.p0.x, c.p1.x, c.p2.x, c.p3.x), Exact(c.p0.y, c.p1.y, c.p2.y, c.p3.y);
    var dx, dy := B(kx, t) - kx.a0, B(ky, t) - ky.a0;
    OffChordParts(c, t);
    FromStart(kx, t);
    FromStart(ky, t);
    CrossAsReal(c.p0, c.p3, c.p1);
    CrossAsReal(c.p0, c.p3, c.p2);
    ExactParts(c);
    Weighted(Weight1(t), Weight2(t), t * t * t,
             kx.a1 - kx.a0, kx.a2 - kx.a0, kx.a3 - kx.a0, ky.a1 - ky.a0, ky.a2 - ky.a0, ky.a3 - ky.a0,
             dx, dy, Cross(c.p0, c.p3, c.p1) as real, Cross(c.p0, c.p3, c.p2) as real);
  }

  lemma ExactParts(c: Cubic)
    ensures var kx, ky := Exact(c.p0.x, c.p1.x, c.p2.x, c.p3.x), Exact(c.p0.y, c.p1.y, c.p2.y, c.p3.y);
            kx == Coef(c.p0.x as real, c.p1.x as real, c.p2.x as real, c.p3.x as real)
            && ky == Coef(c.p0.y as real, c.p1.y as real, c.p2.y as real, c.p3.y as real)
  {}

  lemma OffChordParts(c: Cubic, t: real)
    ensures var kx, ky := Exact(c.p0.x, c.p1.x, c.p2.x, c.p3.x), Exact(c.p0.y, c.p1.y, c.p2.y, c.p3.y);
            OffChord(c, t) == (B(kx, t) - kx.a0) * (ky.a3 - ky.a0) - (B(ky, t) - ky.a0) * (kx.a3 - kx.a0)
  {
    hide B;
  }

  lemma CrossAsReal(a: Pt, b: Pt, p: Pt)
    ensures Cross(a, b, p) as real == (p.x as real - a.x as real) * (b.y as real - a.y as real)
                                      - (p.y as real - a.y as real) * (b.x as real - a.x as real)
  {
    ProductAsReal(p.x - a.x, b.y - a.y);
    ProductAsReal(p.y - a.y, b.x - a.x);
  }

  lemma ProductAsReal(x: int, y: int)
    ensures (x * y) as real == x as real * y as real
  {}

  lemma WeightedBound(w1: real, w2: real, c1: real, c2: real, m: real)
    requires w1 >= 0.0 && w2 >= 0.0 && w1 + w2 <= 1.0 && -m <= c1 <= m && -m <= c2 <= m
    ensures -m <= w1 * c1 + w2 * c2 <= m
  {
    assert w1 * (m - c1) >= 0.0 && w1 * (m + c1) >= 0.0;
    assert w2 * (m - c2) >= 0.0 && w2 * (m + c2) >= 0.0;
    assert (1.0 - w1 - w2) * m >= 0.0;
    assert w1 * (m - c1) == w1 * m - w1 * c1 && w1 * (m + c1) == w1 * m + w1 * c1;
    assert w2 * (m - c2) == w2 * m - w2 * c2 && w2 * (m + c2) == w2 * m + w2 * c2;
    assert (1.0 - w1 - w2) * m == m - w1 * m - w2 * m;
  }

  lemma SquareBelow(x: real, m: real)
    requires -m <= x <= m
    ensures x * x <= m * m
  {
    assert (m - x) * (m + x) >= 0.0;
    assert (m - x) * (m + x) == m * m - x * x;
  }

  function Largest(a: int, b: int): int {
    var x, y := if a < 0 then -a else a, if b < 0 then -b else b;
    if x < y then y else x
  }

  /**
   * Where subdivision stops for flatness, the whole sub-curve, not only its control points, stays
   * within six sixteenths of a pixel of the chord's line.
   */
  lemma StopMeansClose(c: Cubic, t: real)
    requires Flat(c) && Chord2(c.p0, c.p3) >= UNIT * UNIT && 0.0 <= t <= 1.0
    ensures OffChord(c, t) * OffChord(c, t) <= 36.0 * Chord2(c.p0, c.p3) as real
  {
    hide *;
    var c1, c2, l2 := Cross(c.p0, c.p3, c.p1), Cross(c.p0, c.p3, c.p2), Chord2(c.p0, c.p3);
    FlatSquares(c);
    OffChordIs(c, t);
    WeightsFit(t);
    var m := Largest(c1, c2);
    LargestIs(c1, c2);
    WeightedBound(Weight1(t), Weight2(t), c1 as real, c2 as real, m as real);
    SquareBelow(OffChord(c, t), m as real);
    ProductAsReal(m, m);
  }

  lemma FlatSquares(c: Cubic)
    requires Flat(c) && Chord2(c.p0, c.p3) >= UNIT * UNIT
    ensures var c1, c2, l2 := Cross(c.p0, c.p3, c.p1), Cross(c.p0, c.p3, c.p2), Chord2(c.p0, c.p3);
            c1 * c1 <= 36 * l2 && c2 * c2 <= 36 * l2
  {
    hide Cross, Chord2;
  }

  lemma LargestIs(a: int, b: int)
    ensures var m := Largest(a, b);
            -m <= a <= m && -m <= b <= m && (m * m == a * a || m * m == b * b)
  {
    assert -a * -a == a * a && -b * -b == b * b;
  }

  /** Subdivision stops at once exactly for a chord shorter than a pixel and for control points within six
      sixteenths of a pixel of the chord's line: no curve is divided without need. */
  lemma OneEdgeIff(c: Cubic)
    ensures var l2, c1, c2 := Chord2(c.p0, c.p3), Cross(c.p0, c.p3, c.p1), Cross(c.p0, c.p3, c.p2);
            |CubicPoints(c, 0)| == 1 <==> l2 < UNIT * UNIT || (c1 * c1 <= 36 * l2 && c2 * c2 <= 36 * l2)
  {
    if !Flat(c) {
      hide Flat, Chord2, Cross, Left, Right;
      LastVertex(Left(c), 1);
      LastVertex(Right(c), 1);
    }
  }

  // ---------------------------------------------------------------- the curve follows the polyline

  /** A sub-curve at which subdivision stops: its depth, a parameter inside it, and the index of the vertex
      that ends it. */
  datatype Cell = Cell(c: Cubic, depth: nat, s: real, i: nat)

  /** The cell that holds the curve's parameter `s`. */
  function CellAt(c: Cubic, depth: nat, s: real): Cell
    requires depth <= DEPTH
    decreases DEPTH - depth
  {
    if depth == DEPTH || Flat(c) then Cell(c, depth, s, 0)
    else if s <= 0.5 then CellAt(Left(c), depth + 1, 2.0 * s)
    else
      var g := CellAt(Right(c), depth + 1, 2.0 * s - 1.0);
      g.(i := |CubicPoints(Left(c), depth + 1)| + g.i)
  }

  /** Vertex `i` of a polyline that starts at `p`. */
  function Before(p: Pt, ps: seq<Pt>, i: nat): Pt
    requires i <= |ps|
  {
    if i == 0 then p else ps[i - 1]
  }

  lemma {:induction false} LastVertex(c: Cubic, depth: nat)
    requires depth <= DEPTH
    ensures var ps := CubicPoints(c, depth);
            ps != [] && ps[|ps| - 1] == c.p3
    decreases DEPTH - depth
  {
    hide Flat, Left, Right;
    if !(depth == DEPTH || Flat(c)) {
      SharedEnd(c);
      LastVertex(Left(c), depth + 1);
      LastVertex(Right(c), depth + 1);
    }
  }

  lemma SharedEnd(c: Cubic)
    ensures Left(c).p3 == Right(c).p0 && Left(c).p0 == c.p0 && Right(c).p3 == c.p3
  {}

  /** Edges of a polyline that is joined from two. */
  lemma JoinedEdges(p: Pt, l: seq<Pt>, r: seq<Pt>, i: nat)
    ensures i < |l| ==> (l + r)[i] == l[i] && Before(p, l + r, i) == Before(p, l, i)
    ensures l != [] && i < |r| ==> (l + r)[|l| + i] == r[i] && Before(p, l + r, |l| + i) == Before(l[|l| - 1], r, i)
  {}

  /** Vertices `p` to `q` are edge `i` of the polyline that starts at `from`. */
  predicate IsEdge(from: Pt, ps: seq<Pt>, i: nat, p: Pt, q: Pt) {
    i < |ps| && q == ps[i] && p == Before(from, ps, i)
  }

  lemma EdgeOfJoined(from: Pt, l: seq<Pt>, r: seq<Pt>, i: nat, p: Pt, q: Pt)
    ensures IsEdge(from, l, i, p, q) ==> IsEdge(from, l + r, i, p, q)
    ensures l != [] && IsEdge(l[|l| - 1], r, i, p, q) ==> IsEdge(from, l + r, |l| + i, p, q)
  {
    JoinedEdges(from, l, r, i);
  }

  lemma CellStep(c: Cubic, depth: nat, s: real)
    requires depth < DEPTH && !Flat(c)
    ensures CubicPoints(c, depth) == CubicPoints(Left(c), depth + 1) + CubicPoints(Right(c), depth + 1)
    ensures s <= 0.5 ==> CellAt(c, depth, s) == CellAt(Left(c), depth + 1, 2.0 * s)
    ensures s > 0.5 ==>
              var g := CellAt(Right(c), depth + 1, 2.0 * s - 1.0);
              CellAt(c, depth, s) == g.(i := |CubicPoints(Left(c), depth + 1)| + g.i)
  {
    hide Flat, Left, Right;
  }

  lemma CellStops(c: Cubic, depth: nat, s: real)
    requires depth <= DEPTH && (depth == DEPTH || Flat(c))
    ensures CubicPoints(c, depth) == [c.p3] && CellAt(c, depth, s) == Cell(c, depth, s, 0)
    ensures IsEdge(c.p0, [c.p3], 0, c.p0, c.p3)
  {
    hide Flat, Left, Right;
  }

  /** A cell runs from one vertex of the polyline to the next. */
  lemma {:induction false} CellIsEdge(c: Cubic, depth: nat, s: real)
    requires depth <= DEPTH && 0.0 <= s <= 1.0
    ensures var g := CellAt(c, depth, s);
            && depth <= g.depth <= DEPTH && (g.depth == DEPTH || Flat(g.c)) && 0.0 <= g.s <= 1.0
            && IsEdge(c.p0, CubicPoints(c, depth), g.i, g.c.p0, g.c.p3)
    decreases DEPTH - depth
  {
    hide Flat, Left, Right, CubicPoints, CellAt, IsEdge;
    if depth == DEPTH || Flat(c) {
      CellStops(c, depth, s);
    } else {
      CellStep(c, depth, s);
      SharedEnd(c);
      LastVertex(Left(c), depth + 1);
      var l, r := CubicPoints(Left(c), depth + 1), CubicPoints(Right(c), depth + 1);
      if s <= 0.5 {
        CellIsEdge(Left(c), depth + 1, 2.0 * s);
        var g := CellAt(Left(c), depth + 1, 2.0 * s);
        EdgeOfJoined(c.p0, l, r, g.i, g.c.p0, g.c.p3);
      } else {
        CellIsEdge(Right(c), depth + 1, 2.0 * s - 1.0);
        var g := CellAt(Right(c), depth + 1, 2.0 * s - 1.0);
        EdgeOfJoined(c.p0, l, r, g.i, g.c.p0, g.c.p3);
      }
    }
  }

  predicate Within(x: real, y: real, e: real) {
    -e <= x - y <= e
  }

  /** A product, as the proofs below carry it around. */
  function Times(x: real, y: real): real {
    x * y
  }

  lemma TimesBound(w: real, d: real, e: real)
    requires w >= 0.0 && -e <= d <= e
    ensures -Times(w, e) <= Times(w, d) <= Times(w, e)
  {
    ProductNotNegative(w, e - d);
    ProductNotNegative(w, e + d);
    assert w * (e - d) == w * e - w * d && w * (e + d) == w * e + w * d;
  }

  lemma TimesLess(w: real, x: real, y: real)
    ensures Times(w, x - y) == Times(w, x) - Times(w, y)
  {}

  lemma TimesPlus(w: real, x: real, y: real)
    ensures Times(w, x + y) == Times(w, x) + Times(w, y)
  {}

  lemma TimesOne(w0: real, w1: real, w2: real, w3: real, e: real)
    requires w0 + w1 + w2 + w3 == 1.0
    ensures Times(w0, e) + Times(w1, e) + Times(w2, e) + Times(w3, e) == e
  {
    assert w0 * e + w1 * e + w2 * e + w3 * e == (w0 + w1 + w2 + w3) * e;
  }

  /** Four weights that make a mean. */
  datatype Weights = Weights(w0: real, w1: real, w2: real, w3: real) {
    predicate Valid() {
      w0 >= 0.0 && w1 >= 0.0 && w2 >= 0.0 && w3 >= 0.0 && w0 + w1 + w2 + w3 == 1.0
    }
  }

  function Mean(w: Weights, k: Coef): real {
    Times(w.w0, k.a0) + Times(w.w1, k.a1) + Times(w.w2, k.a2) + Times(w.w3, k.a3)
  }

  lemma MeanBound(w: Weights, d: Coef, e: real)
    requires w.Valid()
    requires -e <= d.a0 <= e && -e <= d.a1 <= e && -e <= d.a2 <= e && -e <= d.a3 <= e
    ensures -e <= Mean(w, d) <= e
  {
    hide Times;
    TimesBound(w.w0, d.a0, e);
    TimesBound(w.w1, d.a1, e);
    TimesBound(w.w2, d.a2, e);
    TimesBound(w.w3, d.a3, e);
    TimesOne(w.w0, w.w1, w.w2, w.w3, e);
  }

  function Difference(k: Coef, j: Coef): Coef {
    Coef(k.a0 - j.a0, k.a1 - j.a1, k.a2 - j.a2, k.a3 - j.a3)
  }

  lemma MeanLess(w: Weights, k: Coef, j: Coef)
    ensures Mean(w, Difference(k, j)) == Mean(w, k) - Mean(w, j)
  {
    hide Times;
    TimesLess(w.w0, k.a0, j.a0);
    TimesLess(w.w1, k.a1, j.a1);
    TimesLess(w.w2, k.a2, j.a2);
    TimesLess(w.w3, k.a3, j.a3);
  }

  function WeightsAt(t: real): Weights {
    Weights((1.0 - t) * (1.0 - t) * (1.0 - t), Weight1(t), Weight2(t), t * t * t)
  }

  lemma WeightsAreValid(t: real)
    requires 0.0 <= t <= 1.0
    ensures WeightsAt(t).Valid()
  {
    hide Weight1, Weight2;
    WeightsFit(t);
    WeightsSum(t);
    ProductNotNegative(t, t);
    ProductNotNegative(t * t, t);
    ProductNotNegative(1.0 - t, 1.0 - t);
    ProductNotNegative((1.0 - t) * (1.0 - t), 1.0 - t);
  }

  lemma BezierIsMean(k: Coef, t: real)
    ensures B(k, t) == Mean(WeightsAt(t), k)
  {
    hide B, Weight1, Weight2;
    BezierWeights(k, t);
  }

  /** Curves whose control values are close are close everywhere. */
  lemma CurvesNear(k: Coef, j: Coef, t: real, e: real)
    requires 0.0 <= t <= 1.0
    requires Within(k.a0, j.a0, e) && Within(k.a1, j.a1, e) && Within(k.a2, j.a2, e) && Within(k.a3, j.a3, e)
    ensures Within(B(k, t), B(j, t), e)
  {
    hide B, Mean, WeightsAt;
    BezierIsMean(k, t);
    BezierIsMean(j, t);
    WeightsAreValid(t);
    MeanLess(WeightsAt(t), k, j);
    MeanBound(WeightsAt(t), Difference(k, j), e);
  }

  function ExactX(c: Cubic): Coef {
    Exact(c.p0.x, c.p1.x, c.p2.x, c.p3.x)
  }

  function ExactY(c: Cubic): Coef {
    Exact(c.p0.y, c.p1.y, c.p2.y, c.p3.y)
  }

  lemma FollowsEverywhere(c: Cubic, kx: Coef, ky: Coef, s: real, e: real)
    requires Follows(c, kx, ky, e) && 0.0 <= s <= 1.0
    ensures Within(B(kx, s), B(ExactX(c), s), e) && Within(B(ky, s), B(ExactY(c), s), e)
  {
    hide B;
    CurvesNear(kx, ExactX(c), s, e);
    CurvesNear(ky, ExactY(c), s, e);
  }

  lemma HalfAt(k: Coef, s: real)
    ensures B(k, s) == B(LeftCoef(k), 2.0 * s) && B(k, s) == B(RightCoef(k), 2.0 * s - 1.0)
  {
    LeftHalf(k, 2.0 * s);
    RightHalf(k, 2.0 * s - 1.0);
    hide B;
    assert 2.0 * s / 2.0 == s && (1.0 + (2.0 * s - 1.0)) / 2.0 == s;
  }

  lemma {:induction false} CellFollows(c: Cubic, depth: nat, kx: Coef, ky: Coef, s: real, e: real)
    requires depth <= DEPTH && 0.0 <= s <= 1.0 && e >= 0.0 && Follows(c, kx, ky, e)
    ensures var g := CellAt(c, depth, s);
            && Within(B(kx, s), B(ExactX(g.c), g.s), e + Budget(depth))
            && Within(B(ky, s), B(ExactY(g.c), g.s), e + Budget(depth))
    decreases DEPTH - depth
  {
    hide Flat, Left, Right, LeftCoef, RightCoef, B, Follows, CubicPoints, ExactX, ExactY;
    if depth == DEPTH || Flat(c) {
      FollowsEverywhere(c, kx, ky, s, e);
    } else {
      SplitFollows(c, kx, ky, e);
      HalfAt(kx, s);
      HalfAt(ky, s);
      if s <= 0.5 {
        CellFollows(Left(c), depth + 1, LeftCoef(kx), LeftCoef(ky), 2.0 * s, e + 1.5);
      } else {
        CellFollows(Right(c), depth + 1, RightCoef(kx), RightCoef(ky), 2.0 * s - 1.0, e + 1.5);
      }
    }
  }

  predicate ShortChord(c: Cubic) {
    Chord2(c.p0, c.p3) < UNIT * UNIT
  }

  /**
   * The other direction. Every point of the exact curve belongs to an edge of the polyline, and lies within
   * 22.5 sixteenths of a pixel in each coordinate of a point that is at most six sixteenths off the edge's
   * line, unless subdivision stopped there because the edge is shorter than a pixel or for its depth.
   */
  lemma CurveFollowsPolyline(c: Cubic, t: real)
    requires 0.0 <= t <= 1.0
    ensures var g := CellAt(c, 0, t);
            && IsEdge(c.p0, CubicPoints(c, 0), g.i, g.c.p0, g.c.p3) && 0.0 <= g.s <= 1.0
            && Within(B(ExactX(c), t), B(ExactX(g.c), g.s), 22.5)
            && Within(B(ExactY(c), t), B(ExactY(g.c), g.s), 22.5)
            && (!ShortChord(g.c) && g.depth < DEPTH ==>
                  OffChord(g.c, g.s) * OffChord(g.c, g.s) <= 36.0 * Chord2(g.c.p0, g.c.p3) as real)
  {
    hide *;
    FollowsItself(c);
    CellIsEdge(c, 0, t);
    CellFollows(c, 0, ExactX(c), ExactY(c), t, 0.0);
    var g := CellAt(c, 0, t);
    if !ShortChord(g.c) && g.depth < DEPTH {
      StopIsClose(g);
    }
  }

  lemma FollowsItself(c: Cubic)
    ensures Follows(c, ExactX(c), ExactY(c), 0.0) && 0.0 + Budget(0) == 22.5
  {}

  lemma StopIsClose(g: Cell)
    requires 0.0 <= g.s <= 1.0 && (g.depth == DEPTH || Flat(g.c)) && !ShortChord(g.c) && g.depth < DEPTH
    ensures OffChord(g.c, g.s) * OffChord(g.c, g.s) <= 36.0 * Chord2(g.c.p0, g.c.p3) as real
  {
    hide OffChord, Chord2, Flat;
    StopMeansClose(g.c, g.s);
  }

  /** The exception is real: a curve that returns to its start is flattened to that point, however far it
      goes in between. */
  lemma ClosedLoopVanishes(p: Pt, q: Pt, s: Pt)
    ensures CubicPoints(Cubic(p, q, s, p), 0) == [p]
    ensures var c := Cubic(p, q, s, p);
            4.0 * (B(ExactX(c), 0.5) - p.x as real) == 1.5 * ((q.x - p.x) + (s.x - p.x)) as real
  {
    hide B;
    FromStart(ExactX(Cubic(p, q, s, p)), 0.5);
  }

  /** How far along the chord the curve is at `t`, times the chord's length. */
  function Along(c: Cubic, t: real): real {
    Times(B(ExactX(c), t) - c.p0.x as real, (c.p3.x - c.p0.x) as real)
    + Times(B(ExactY(c), t) - c.p0.y as real, (c.p3.y - c.p0.y) as real)
  }

  function Dot(a: Pt, b: Pt, p: Pt): int {
    (p.x - a.x) * (b.x - a.x) + (p.y - a.y) * (b.y - a.y)
  }

  /** Each control value's share of the way along the chord, for one coordinate. */
  function Shares(k: Coef, d: real): Coef {
    Coef(0.0, Times(k.a1 - k.a0, d), Times(k.a2 - k.a0, d), Times(k.a3 - k.a0, d))
  }

  lemma AxisAlong(k: Coef, d: real, t: real)
    ensures Times(B(k, t) - k.a0, d) == Mean(WeightsAt(t), Shares(k, d))
  {
    hide B, Weight1, Weight2;
    FromStart(k, t);
    Regrouped(Weight1(t), Weight2(t), t * t * t, k.a1 - k.a0, k.a2 - k.a0, k.a3 - k.a0, d);
  }

  lemma Regrouped(w1: real, w2: real, w3: real, x1: real, x2: real, x3: real, d: real)
    ensures (w1 * x1 + w2 * x2 + w3 * x3) * d == w1 * (x1 * d) + w2 * (x2 * d) + w3 * (x3 * d)
  {}

  lemma MeanPlus(w: Weights, k: Coef, j: Coef)
    ensures Mean(w, k) + Mean(w, j) == Mean(w, Coef(k.a0 + j.a0, k.a1 + j.a1, k.a2 + j.a2, k.a3 + j.a3))
  {
    hide Times;
    TimesPlus(w.w0, k.a0, j.a0);
    TimesPlus(w.w1, k.a1, j.a1);
    TimesPlus(w.w2, k.a2, j.a2);
    TimesPlus(w.w3, k.a3, j.a3);
  }

  /** The places of the control points along the chord. */
  function Places(c: Cubic): Coef {
    Coef(0.0, Dot(c.p0, c.p3, c.p1) as real, Dot(c.p0, c.p3, c.p2) as real, Chord2(c.p0, c.p3) as real)
  }

  lemma SharesAddUp(c: Cubic)
    ensures var sx, sy := Shares(ExactX(c), (c.p3.x - c.p0.x) as real), Shares(ExactY(c), (c.p3.y - c.p0.y) as real);
            Places(c) == Coef(sx.a0 + sy.a0, sx.a1 + sy.a1, sx.a2 + sy.a2, sx.a3 + sy.a3)
  {
    var dx, dy := c.p3.x - c.p0.x, c.p3.y - c.p0.y;
    TimesAsReal(c.p1.x - c.p0.x, dx);
    TimesAsReal(c.p1.y - c.p0.y, dy);
    TimesAsReal(c.p2.x - c.p0.x, dx);
    TimesAsReal(c.p2.y - c.p0.y, dy);
    TimesAsReal(dx, dx);
    TimesAsReal(dy, dy);
    hide Times;
  }

  lemma TimesAsReal(x: int, y: int)
    ensures Times(x as real, y as real) == (x * y) as real
  {}

  /** The place along the chord is the mean of the places of the control points. */
  lemma AlongIs(c: Cubic, t: real)
    ensures Along(c, t) == Mean(WeightsAt(t), Places(c))
  {
    hide B, Mean, WeightsAt, Places, Times, Shares;
    var dx, dy := (c.p3.x - c.p0.x) as real, (c.p3.y - c.p0.y) as real;
    AxisAlong(ExactX(c), dx, t);
    AxisAlong(ExactY(c), dy, t);
    SharesAddUp(c);
    MeanPlus(WeightsAt(t), Shares(ExactX(c), dx), Shares(ExactY(c), dy));
  }

  /** A cell whose control points project onto its chord stays beside the chord itself, not only near its
      line. */
  lemma StaysBesideChord(c: Cubic, t: real)
    requires 0.0 <= t <= 1.0
    requires 0 <= Dot(c.p0, c.p3, c.p1) <= Chord2(c.p0, c.p3) && 0 <= Dot(c.p0, c.p3, c.p2) <= Chord2(c.p0, c.p3)
    ensures 0.0 <= Along(c, t) <= Chord2(c.p0, c.p3) as real
  {
    hide B, Dot, Chord2, WeightsAt, Along;
    AlongIs(c, t);
    WeightsAreValid(t);
    MeanBetween(WeightsAt(t), Places(c), Chord2(c.p0, c.p3) as real);
  }

  lemma MeanBetween(w: Weights, k: Coef, m: real)
    requires w.Valid() && 0.0 <= k.a0 <= m && 0.0 <= k.a1 <= m && 0.0 <= k.a2 <= m && 0.0 <= k.a3 <= m
    ensures 0.0 <= Mean(w, k) <= m
  {
    var h := m / 2.0;
    var half := Coef(h, h, h, h);
    hide Mean;
    MeanLess(w, k, half);
    MeanBound(w, Difference(k, half), h);
    MeanOfSame(w, h);
  }

  lemma MeanOfSame(w: Weights, h: real)
    requires w.Valid()
    ensures Mean(w, Coef(h, h, h, h)) == h
  {
    hide Times;
    TimesOne(w.w0, w.w1, w.w2, w.w3, h);
  }

  /** That condition matters too: a curve that runs along its chord's line far past the end is cut to the
      chord. */
  lemma OvershootIsCut(p: Pt, d: nat)
    requires d >= UNIT
    ensures var c := Cubic(p, Pt(p.x + 8 * d, p.y), Pt(p.x + 8 * d, p.y), Pt(p.x + d, p.y));
            CubicPoints(c, 0) == [c.p3] && B(ExactX(c), 0.5) == p.x as real + 6.125 * d as real
  {
    var c := Cubic(p, Pt(p.x + 8 * d, p.y), Pt(p.x + 8 * d, p.y), Pt(p.x + d, p.y));
    assert Cross(c.p0, c.p3, c.p1) == 0 && Cross(c.p0, c.p3, c.p2) == 0;
    assert d * d >= 0;
    hide B;
    FromStart(ExactX(c), 0.5);
  }

  // ---------------------------------------------------------------- quadratic curves

  function QuadLeft(q: Quad): Quad {
    var q01, q12 := Mid(q.p0, q.p1), Mid(q.p1, q.p2);
    Quad(q.p0, q01, Mid(q01, q12))
  }

  function QuadRight(q: Quad): Quad {
    var q01, q12 := Mid(q.p0, q.p1), Mid(q.p1, q.p2);
    Quad(Mid(q01, q12), q12, q.p2)
  }

  predicate QuadIsFlat(q: Quad) {
    var l2, c := Chord2(q.p0, q.p2), Cross(q.p0, q.p2, q.p1);
    l2 < UNIT * UNIT || c * c <= 36 * l2
  }

  const QUAD_DEPTH: nat := 13

  function QuadPoints(q: Quad, depth: nat): seq<Pt>
    requires depth <= QUAD_DEPTH
    decreases QUAD_DEPTH - depth
  {
    if depth == QUAD_DEPTH || QuadIsFlat(q) then [q.p2]
    else QuadPoints(QuadLeft(q), depth + 1) + QuadPoints(QuadRight(q), depth + 1)
  }

  function QuadParams(q: Quad, depth: nat, a: real, b: real): (ts: seq<real>)
    requires depth <= QUAD_DEPTH
    ensures |ts| == |QuadPoints(q, depth)| > 0
    decreases QUAD_DEPTH - depth
  {
    if depth == QUAD_DEPTH || QuadIsFlat(q) then [b]
    else
      var m := (a + b) / 2.0;
      QuadParams(QuadLeft(q), depth + 1, a, m) + QuadParams(QuadRight(q), depth + 1, m, b)
  }

  /** A quadratic curve, written as the cubic it is. */
  function Raised(a0: real, a1: real, a2: real): Coef {
    Coef(a0, (a0 + 2.0 * a1) / 3.0, (2.0 * a1 + a2) / 3.0, a2)
  }

  lemma RaisedIsQuadratic(a0: real, a1: real, a2: real, t: real)
    ensures B(Raised(a0, a1, a2), t) == (1.0 - t) * (1.0 - t) * a0 + 2.0 * ((1.0 - t) * t) * a1 + t * t * a2
  {}

  lemma RaisedHalves(a0: real, a1: real, a2: real)
    ensures LeftCoef(Raised(a0, a1, a2)) == Raised(a0, (a0 + a1) / 2.0, ((a0 + a1) / 2.0 + (a1 + a2) / 2.0) / 2.0)
    ensures RightCoef(Raised(a0, a1, a2)) == Raised(((a0 + a1) / 2.0 + (a1 + a2) / 2.0) / 2.0, (a1 + a2) / 2.0, a2)
  {}

  /** The exact control values of one coordinate of a quadratic curve. */
  datatype Three = Three(a0: real, a1: real, a2: real)

  predicate NearThree(v0: int, v1: int, v2: int, k: Three, e: real) {
    Near(v0, k.a0, e) && Near(v1, k.a1, e) && Near(v2, k.a2, e)
  }

  function LeftThree(k: Three): Three {
    Three(k.a0, (k.a0 + k.a1) / 2.0, ((k.a0 + k.a1) / 2.0 + (k.a1 + k.a2) / 2.0) / 2.0)
  }

  function RightThree(k: Three): Three {
    Three(((k.a0 + k.a1) / 2.0 + (k.a1 + k.a2) / 2.0) / 2.0, (k.a1 + k.a2) / 2.0, k.a2)
  }

  /** Halving one coordinate of a quadratic costs at most one unit. */
  lemma SplitNearThree(v0: int, v1: int, v2: int, k: Three, e: real)
    requires NearThree(v0, v1, v2, k, e) && e >= 0.0
    ensures var v01, v12 := Half(v0 + v1), Half(v1 + v2);
            var m := Half(v01 + v12);
            NearThree(v0, v01, m, LeftThree(k), e + 1.0) && NearThree(m, v12, v2, RightThree(k), e + 1.0)
  {
    hide Half, Near;
    var v01, v12, x01, x12 := Half(v0 + v1), Half(v1 + v2), (k.a0 + k.a1) / 2.0, (k.a1 + k.a2) / 2.0;
    HalfNear(v0, v1, k.a0, k.a1, e);
    HalfNear(v1, v2, k.a1, k.a2, e);
    HalfNear(v01, v12, x01, x12, e + 0.5);
    Widen(v0, k.a0, e, e + 1.0);
    Widen(v2, k.a2, e, e + 1.0);
    Widen(v01, x01, e + 0.5, e + 1.0);
    Widen(v12, x12, e + 0.5, e + 1.0);
  }

  predicate QuadFollows(q: Quad, kx: Three, ky: Three, e: real) {
    NearThree(q.p0.x, q.p1.x, q.p2.x, kx, e) && NearThree(q.p0.y, q.p1.y, q.p2.y, ky, e)
  }

  lemma QuadSplitFollows(q: Quad, kx: Three, ky: Three, e: real)
    requires QuadFollows(q, kx, ky, e) && e >= 0.0
    ensures QuadFollows(QuadLeft(q), LeftThree(kx), LeftThree(ky), e + 1.0)
    ensures QuadFollows(QuadRight(q), RightThree(kx), RightThree(ky), e + 1.0)
  {
    hide NearThree, LeftThree, RightThree, Half;
    SplitNearThree(q.p0.x, q.p1.x, q.p2.x, kx, e);
    SplitNearThree(q.p0.y, q.p1.y, q.p2.y, ky, e);
  }

  function Lift(k: Three): Coef {
    Raised(k.a0, k.a1, k.a2)
  }

  lemma LiftParts(k: Three, whole: Coef, a: real, b: real)
    requires Part(Lift(k), whole, a, b)
    ensures Part(Lift(LeftThree(k)), whole, a, (a + b) / 2.0) && Part(Lift(RightThree(k)), whole, (a + b) / 2.0, b)
  {
    RaisedHalves(k.a0, k.a1, k.a2);
    hide Part;
    PartLeft(Lift(k), whole, a, b);
    PartRight(Lift(k), whole, a, b);
  }

  lemma QuadEndOnCurve(q: Quad, kx: Three, ky: Three, wx: Coef, wy: Coef, a: real, b: real, e: real)
    requires QuadFollows(q, kx, ky, e) && Part(Lift(kx), wx, a, b) && Part(Lift(ky), wy, a, b)
    ensures OnCurve(q.p2, wx, wy, b, e)
  {
    assert B(Lift(kx), 1.0) == kx.a2 && B(Lift(ky), 1.0) == ky.a2;
    hide B;
    assert a + 1.0 * (b - a) == b;
  }

  lemma {:induction false} QuadVerticesFollow(q: Quad, depth: nat, kx: Three, ky: Three, wx: Coef, wy: Coef, a: real, b: real, e: real, i: nat)
    requires depth <= QUAD_DEPTH && e >= 0.0 && QuadFollows(q, kx, ky, e)
    requires Part(Lift(kx), wx, a, b) && Part(Lift(ky), wy, a, b) && i < |QuadPoints(q, depth)|
    ensures OnCurve(QuadPoints(q, depth)[i], wx, wy, QuadParams(q, depth, a, b)[i], e + (QUAD_DEPTH - depth) as real)
    decreases QUAD_DEPTH - depth
  {
    hide QuadFollows, Part, QuadIsFlat, QuadLeft, QuadRight, LeftThree, RightThree, Lift, B;
    if depth == QUAD_DEPTH || QuadIsFlat(q) {
      QuadEndOnCurve(q, kx, ky, wx, wy, a, b, e);
    } else {
      var m := (a + b) / 2.0;
      QuadSplitFollows(q, kx, ky, e);
      LiftParts(kx, wx, a, b);
      LiftParts(ky, wy, a, b);
      var n := |QuadPoints(QuadLeft(q), depth + 1)|;
      assert n == |QuadParams(QuadLeft(q), depth + 1, a, m)|;
      if i < n {
        QuadVerticesFollow(QuadLeft(q), depth + 1, LeftThree(kx), LeftThree(ky), wx, wy, a, m, e + 1.0, i);
      } else {
        QuadVerticesFollow(QuadRight(q), depth + 1, RightThree(kx), RightThree(ky), wx, wy, m, b, e + 1.0, i - n);
      }
    }
  }

  lemma {:induction false} QuadParamsRise(q: Quad, depth: nat, a: real, b: real)
    requires depth <= QUAD_DEPTH && a < b
    ensures Rising(QuadParams(q, depth, a, b), a, b)
    decreases QUAD_DEPTH - depth
  {
    hide QuadIsFlat, QuadLeft, QuadRight, QuadPoints;
    if !(depth == QUAD_DEPTH || QuadIsFlat(q)) {
      hide Rising;
      var m := (a + b) / 2.0;
      QuadParamsRise(QuadLeft(q), depth + 1, a, m);
      QuadParamsRise(QuadRight(q), depth + 1, m, b);
      RisingJoin(QuadParams(QuadLeft(q), depth + 1, a, m), QuadParams(QuadRight(q), depth + 1, m, b), a, m, b);
    }
  }

  /** The same for quadratic curves, within 13 sixteenths of a pixel. */
  lemma QuadPolylineFollowsCurve(q: Quad, i: nat)
    requires i < |QuadPoints(q, 0)|
    ensures var ts := QuadParams(q, 0, 0.0, 1.0);
            Rising(ts, 0.0, 1.0)
            && OnCurve(QuadPoints(q, 0)[i], Raised(q.p0.x as real, q.p1.x as real, q.p2.x as real),
                       Raised(q.p0.y as real, q.p1.y as real, q.p2.y as real), ts[i], 13.0)
  {
    var kx, ky := Three(q.p0.x as real, q.p1.x as real, q.p2.x as real), Three(q.p0.y as real, q.p1.y as real, q.p2.y as real);
    QuadParamsRise(q, 0, 0.0, 1.0);
    assert QuadFollows(q, kx, ky, 0.0);
    WholeIsPart(Lift(kx));
    WholeIsPart(Lift(ky));
    QuadVerticesFollow(q, 0, kx, ky, Lift(kx), Lift(ky), 0.0, 1.0, 0.0, i);
    hide OnCurve, QuadPoints, QuadParams, Rising, Raised;
    assert 0.0 + (QUAD_DEPTH - 0) as real == 13.0;
  }

  // ---------------------------------------------------------------- and the quadratic curve follows its polyline

  datatype QuadCell = QuadCell(q: Quad, depth: nat, s: real, i: nat)

  function QuadCellAt(q: Quad, depth: nat, s: real): QuadCell
    requires depth <= QUAD_DEPTH
    decreases QUAD_DEPTH - depth
  {
    if depth == QUAD_DEPTH || QuadIsFlat(q) then QuadCell(q, depth, s, 0)
    else if s <= 0.5 then QuadCellAt(QuadLeft(q), depth + 1, 2.0 * s)
    else
      var g := QuadCellAt(QuadRight(q), depth + 1, 2.0 * s - 1.0);
      g.(i := |QuadPoints(QuadLeft(q), depth + 1)| + g.i)
  }

  lemma QuadSharedEnd(q: Quad)
    ensures QuadLeft(q).p2 == QuadRight(q).p0 && QuadLeft(q).p0 == q.p0 && QuadRight(q).p2 == q.p2
  {}

  lemma {:induction false} QuadLastVertex(q: Quad, depth: nat)
    requires depth <= QUAD_DEPTH
    ensures var ps := QuadPoints(q, depth);
            ps != [] && ps[|ps| - 1] == q.p2
    decreases QUAD_DEPTH - depth
  {
    hide QuadIsFlat, QuadLeft, QuadRight;
    if !(depth == QUAD_DEPTH || QuadIsFlat(q)) {
      QuadSharedEnd(q);
      QuadLastVertex(QuadLeft(q), depth + 1);
      QuadLastVertex(QuadRight(q), depth + 1);
    }
  }

  lemma QuadCellStep(q: Quad, depth: nat, s: real)
    requires depth < QUAD_DEPTH && !QuadIsFlat(q)
    ensures QuadPoints(q, depth) == QuadPoints(QuadLeft(q), depth + 1) + QuadPoints(QuadRight(q), depth + 1)
    ensures s <= 0.5 ==> QuadCellAt(q, depth, s) == QuadCellAt(QuadLeft(q), depth + 1, 2.0 * s)
    ensures s > 0.5 ==>
              var g := QuadCellAt(QuadRight(q), depth + 1, 2.0 * s - 1.0);
              QuadCellAt(q, depth, s) == g.(i := |QuadPoints(QuadLeft(q), depth + 1)| + g.i)
  {
    hide QuadIsFlat, QuadLeft, QuadRight;
  }

  lemma QuadCellStops(q: Quad, depth: nat, s: real)
    requires depth <= QUAD_DEPTH && (depth == QUAD_DEPTH || QuadIsFlat(q))
    ensures QuadPoints(q, depth) == [q.p2] && QuadCellAt(q, depth, s) == QuadCell(q, depth, s, 0)
    ensures IsEdge(q.p0, [q.p2], 0, q.p0, q.p2)
  {
    hide QuadIsFlat, QuadLeft, QuadRight;
  }

  lemma {:induction false} QuadCellIsEdge(q: Quad, depth: nat, s: real)
    requires depth <= QUAD_DEPTH && 0.0 <= s <= 1.0
    ensures var g := QuadCellAt(q, depth, s);
            && depth <= g.depth <= QUAD_DEPTH && (g.depth == QUAD_DEPTH || QuadIsFlat(g.q)) && 0.0 <= g.s <= 1.0
            && IsEdge(q.p0, QuadPoints(q, depth), g.i, g.q.p0, g.q.p2)
    decreases QUAD_DEPTH - depth
  {
    hide QuadIsFlat, QuadLeft, QuadRight, QuadPoints, QuadCellAt, IsEdge;
    if depth == QUAD_DEPTH || QuadIsFlat(q) {
      QuadCellStops(q, depth, s);
    } else {
      QuadCellStep(q, depth, s);
      QuadSharedEnd(q);
      QuadLastVertex(QuadLeft(q), depth + 1);
      var l, r := QuadPoints(QuadLeft(q), depth + 1), QuadPoints(QuadRight(q), depth + 1);
      if s <= 0.5 {
        QuadCellIsEdge(QuadLeft(q), depth + 1, 2.0 * s);
        var g := QuadCellAt(QuadLeft(q), depth + 1, 2.0 * s);
        EdgeOfJoined(q.p0, l, r, g.i, g.q.p0, g.q.p2);
      } else {
        QuadCellIsEdge(QuadRight(q), depth + 1, 2.0 * s - 1.0);
        var g := QuadCellAt(QuadRight(q), depth + 1, 2.0 * s - 1.0);
        EdgeOfJoined(q.p0, l, r, g.i, g.q.p0, g.q.p2);
      }
    }
  }

  /** No quadratic curve is divided without need. */
  lemma QuadOneEdgeIff(q: Quad)
    ensures var l2, c := Chord2(q.p0, q.p2), Cross(q.p0, q.p2, q.p1);
            |QuadPoints(q, 0)| == 1 <==> l2 < UNIT * UNIT || c * c <= 36 * l2
  {
    if !QuadIsFlat(q) {
      hide QuadIsFlat, Chord2, Cross, QuadLeft, QuadRight;
      QuadLastVertex(QuadLeft(q), 1);
      QuadLastVertex(QuadRight(q), 1);
    }
  }

  function QuadX(q: Quad): Three {
    Three(q.p0.x as real, q.p1.x as real, q.p2.x as real)
  }

  function QuadY(q: Quad): Three {
    Three(q.p0.y as real, q.p1.y as real, q.p2.y as real)
  }

  lemma LiftsNear(k: Three, j: Three, s: real, e: real)
    requires 0.0 <= s <= 1.0 && Within(k.a0, j.a0, e) && Within(k.a1, j.a1, e) && Within(k.a2, j.a2, e)
    ensures Within(B(Lift(k), s), B(Lift(j), s), e)
  {
    hide B;
    CurvesNear(Lift(k), Lift(j), s, e);
  }

  lemma QuadFollowsEverywhere(q: Quad, kx: Three, ky: Three, s: real, e: real)
    requires QuadFollows(q, kx, ky, e) && 0.0 <= s <= 1.0
    ensures Within(B(Lift(kx), s), B(Lift(QuadX(q)), s), e) && Within(B(Lift(ky), s), B(Lift(QuadY(q)), s), e)
  {
    hide B, Lift;
    LiftsNear(kx, QuadX(q), s, e);
    LiftsNear(ky, QuadY(q), s, e);
  }

  lemma LiftHalfAt(k: Three, s: real)
    ensures B(Lift(k), s) == B(Lift(LeftThree(k)), 2.0 * s) && B(Lift(k), s) == B(Lift(RightThree(k)), 2.0 * s - 1.0)
  {
    RaisedHalves(k.a0, k.a1, k.a2);
    HalfAt(Lift(k), s);
    hide B;
  }

  lemma {:induction false} QuadCellFollows(q: Quad, depth: nat, kx: Three, ky: Three, s: real, e: real)
    requires depth <= QUAD_DEPTH && 0.0 <= s <= 1.0 && e >= 0.0 && QuadFollows(q, kx, ky, e)
    ensures var g := QuadCellAt(q, depth, s);
            && Within(B(Lift(kx), s), B(Lift(QuadX(g.q)), g.s), e + (QUAD_DEPTH - depth) as real)
            && Within(B(Lift(ky), s), B(Lift(QuadY(g.q)), g.s), e + (QUAD_DEPTH - depth) as real)
    decreases QUAD_DEPTH - depth
  {
    hide QuadIsFlat, QuadLeft, QuadRight, LeftThree, RightThree, B, Lift, QuadFollows, QuadPoints, QuadX, QuadY;
    if depth == QUAD_DEPTH || QuadIsFlat(q) {
      QuadFollowsEverywhere(q, kx, ky, s, e);
    } else {
      QuadSplitFollows(q, kx, ky, e);
      LiftHalfAt(kx, s);
      LiftHalfAt(ky, s);
      if s <= 0.5 {
        QuadCellFollows(QuadLeft(q), depth + 1, LeftThree(kx), LeftThree(ky), 2.0 * s, e + 1.0);
      } else {
        QuadCellFollows(QuadRight(q), depth + 1, RightThree(kx), RightThree(ky), 2.0 * s - 1.0, e + 1.0);
      }
    }
  }

  /** How far the curve at `t` is off the line of the chord, times the chord's length. */
  function QuadOff(q: Quad, t: real): real {
    Times(B(Lift(QuadX(q)), t) - q.p0.x as real, (q.p2.y - q.p0.y) as real)
    - Times(B(Lift(QuadY(q)), t) - q.p0.y as real, (q.p2.x - q.p0.x) as real)
  }

  lemma QuadFromStart(k: Three, t: real)
    ensures B(Lift(k), t) - k.a0 == 2.0 * ((1.0 - t) * t) * (k.a1 - k.a0) + t * t * (k.a2 - k.a0)
  {
    hide B, Raised;
    RaisedIsQuadratic(k.a0, k.a1, k.a2, t);
    assert (1.0 - t) * (1.0 - t) + 2.0 * ((1.0 - t) * t) + t * t == 1.0;
    ThreeTerms((1.0 - t) * (1.0 - t), 2.0 * ((1.0 - t) * t), t * t, k);
  }

  lemma ThreeTerms(w0: real, w1: real, w2: real, k: Three)
    requires w0 + w1 + w2 == 1.0
    ensures w0 * k.a0 + w1 * k.a1 + w2 * k.a2 - k.a0 == w1 * (k.a1 - k.a0) + w2 * (k.a2 - k.a0)
  {
    assert (w0 + w1 + w2) * k.a0 == k.a0;
    assert (w0 + w1 + w2) * k.a0 == w0 * k.a0 + w1 * k.a0 + w2 * k.a0;
  }

  /** The chord's end contributes nothing: only the control point's offset remains. */
  lemma EndCancels(w1: real, w2: real, x1: real, y1: real, x2: real, y2: real)
    ensures Times(w1 * x1 + w2 * x2, y2) - Times(w1 * y1 + w2 * y2, x2) == Times(w1, x1 * y2 - y1 * x2)
  {
    assert (w1 * x1 + w2 * x2) * y2 == w1 * (x1 * y2) + w2 * (x2 * y2);
    assert (w1 * y1 + w2 * y2) * x2 == w1 * (y1 * x2) + w2 * (x2 * y2);
    assert w1 * (x1 * y2 - y1 * x2) == w1 * (x1 * y2) - w1 * (y1 * x2);
  }

  lemma QuadOffIs(q: Quad, t: real)
    ensures QuadOff(q, t) == Times(2.0 * ((1.0 - t) * t), Cross(q.p0, q.p2, q.p1) as real)
  {
    var kx, ky := QuadX(q), QuadY(q);
    QuadFromStart(kx, t);
    QuadFromStart(ky, t);
    CrossAsReal(q.p0, q.p2, q.p1);
    hide B, Times, Cross, Lift;
    var w1, w2 := 2.0 * ((1.0 - t) * t), t * t;
    var x1, y1, x2, y2 := kx.a1 - kx.a0, ky.a1 - ky.a0, kx.a2 - kx.a0, ky.a2 - ky.a0;
    EndCancels(w1, w2, x1, y1, x2, y2);
    assert x2 == (q.p2.x - q.p0.x) as real && y2 == (q.p2.y - q.p0.y) as real;
    assert B(Lift(kx), t) - q.p0.x as real == w1 * x1 + w2 * x2;
    assert B(Lift(ky), t) - q.p0.y as real == w1 * y1 + w2 * y2;
    assert x1 * y2 - y1 * x2 == Cross(q.p0, q.p2, q.p1) as real;
  }

  lemma HalfWeight(t: real)
    requires 0.0 <= t <= 1.0
    ensures 0.0 <= 2.0 * ((1.0 - t) * t) <= 0.5
  {
    ProductNotNegative(1.0 - t, t);
    AtMostQuarter(t);
  }

  lemma ScaledSquare(w: real, c: real)
    requires 0.0 <= w <= 0.5
    ensures 4.0 * Times(Times(w, c), Times(w, c)) <= Times(c, c)
  {
    var a := if c < 0.0 then -c else c;
    ProductNotNegative(w, a);
    ProductNotNegative(0.5 - w, a);
    assert (0.5 - w) * a == 0.5 * a - w * a;
    SquareBelow(w * a, 0.5 * a);
    assert (w * c) * (w * c) == (w * a) * (w * a) && (0.5 * a) * (0.5 * a) == 0.25 * (a * a) && a * a == c * c;
  }

  /** Where a quadratic stops for flatness it is within three sixteenths of a pixel of the chord's line. */
  lemma QuadStopMeansClose(q: Quad, t: real)
    requires QuadIsFlat(q) && Chord2(q.p0, q.p2) >= UNIT * UNIT && 0.0 <= t <= 1.0
    ensures Times(QuadOff(q, t), QuadOff(q, t)) <= 9.0 * Chord2(q.p0, q.p2) as real
  {
    var c, l2 := Cross(q.p0, q.p2, q.p1), Chord2(q.p0, q.p2);
    assert c * c <= 36 * l2;
    hide *;
    QuadOffIs(q, t);
    HalfWeight(t);
    ScaledSquare(2.0 * ((1.0 - t) * t), c as real);
    TimesAsReal(c, c);
  }

  /** The other direction for quadratic curves. */
  lemma QuadCurveFollowsPolyline(q: Quad, t: real)
    requires 0.0 <= t <= 1.0
    ensures var g := QuadCellAt(q, 0, t);
            && IsEdge(q.p0, QuadPoints(q, 0), g.i, g.q.p0, g.q.p2) && 0.0 <= g.s <= 1.0
            && Within(B(Lift(QuadX(q)), t), B(Lift(QuadX(g.q)), g.s), 13.0)
            && Within(B(Lift(QuadY(q)), t), B(Lift(QuadY(g.q)), g.s), 13.0)
            && (Chord2(g.q.p0, g.q.p2) >= UNIT * UNIT && g.depth < QUAD_DEPTH ==>
                  Times(QuadOff(g.q, g.s), QuadOff(g.q, g.s)) <= 9.0 * Chord2(g.q.p0, g.q.p2) as real)
  {
    hide *;
    QuadFollowsItself(q);
    QuadCellIsEdge(q, 0, t);
    QuadCellFollows(q, 0, QuadX(q), QuadY(q), t, 0.0);
    var g := QuadCellAt(q, 0, t);
    if Chord2(g.q.p0, g.q.p2) >= UNIT * UNIT && g.depth < QUAD_DEPTH {
      QuadStopMeansClose(g.q, g.s);
    }
  }

  lemma QuadFollowsItself(q: Quad)
    ensures QuadFollows(q, QuadX(q), QuadY(q), 0.0) && 0.0 + (QUAD_DEPTH - 0) as real == 13.0 && 0 <= QUAD_DEPTH
  {}

  // ---------------------------------------------------------------- the vertex buffer

  /** A list cut to the capacity of the buffer. */
  function Capped(s: seq<Pt>, cap: nat): seq<Pt> {
    if |s| <= cap then s else s[..cap]
  }

  lemma CappedTwice(s: seq<Pt>, t: seq<Pt>, cap: nat)
    ensures Capped(Capped(s, cap) + t, cap) == Capped(s + t, cap)
  {}

  lemma CappedFull(s: seq<Pt>, t: seq<Pt>, cap: nat)
    requires |s| == cap
    ensures Capped(s + t, cap) == s
  {}

  class FlatCtx {
    var pts: seq<Pt>
    const cap: nat

    constructor (cap: nat)
      ensures pts == [] && this.cap == cap
    {
      pts := [];
      this.cap := cap;
    }

    /** A vertex that does not fit is dropped. */
    method Emit(p: Pt)
      requires |pts| <= cap
      modifies this
      ensures pts == Capped(old(pts) + [p], cap) && |pts| <= cap
    {
      if |pts| >= cap {
        return;
      }
      pts := pts + [p];
    }

    /** Recursion stops at depth 15, so it terminates on every input; the buffer gains the vertices
        that fit. */
    method CubicFlat(c: Cubic, depth: nat)
      requires |pts| <= cap && depth <= DEPTH
      modifies this
      ensures pts == Capped(old(pts) + CubicPoints(c, depth), cap) && |pts| <= cap
      decreases DEPTH - depth
    {
      hide Flat, Mid, Capped;
      if depth > 14 || |pts| + 1 > cap {
        if |pts| == cap {
          CappedFull(pts, [c.p3], cap);
          CappedFull(pts, CubicPoints(c, depth), cap);
        }
        Emit(c.p3);
        return;
      }
      if Flat(c) {
        Emit(c.p3);
        return;
      }
      ghost var l, r := CubicPoints(Left(c), depth + 1), CubicPoints(Right(c), depth + 1);
      assert CubicPoints(c, depth) == l + r;
      hide CubicPoints;
      var p01, p12, p23 := Mid(c.p0, c.p1), Mid(c.p1, c.p2), Mid(c.p2, c.p3);
      var p012, p123 := Mid(p01, p12), Mid(p12, p23);
      var p0123 := Mid(p012, p123);
      CubicFlat(Cubic(c.p0, p01, p012, p0123), depth + 1);
      CubicFlat(Cubic(p0123, p123, p23, c.p3), depth + 1);
      CappedTwice(old(pts) + l, r, cap);
      assert old(pts) + l + r == old(pts) + (l + r);
    }

    method QuadFlat(q: Quad, depth: nat)
      requires |pts| <= cap && depth <= QUAD_DEPTH
      modifies this
      ensures pts == Capped(old(pts) + QuadPoints(q, depth), cap) && |pts| <= cap
      decreases QUAD_DEPTH - depth
    {
      hide QuadIsFlat, Mid, Capped;
      if depth > 12 || |pts| + 1 > cap {
        if |pts| == cap {
          CappedFull(pts, [q.p2], cap);
          CappedFull(pts, QuadPoints(q, depth), cap);
        }
        Emit(q.p2);
        return;
      }
      if QuadIsFlat(q) {
        Emit(q.p2);
        return;
      }
      ghost var l, r := QuadPoints(QuadLeft(q), depth + 1), QuadPoints(QuadRight(q), depth + 1);
      assert QuadPoints(q, depth) == l + r;
      hide QuadPoints;
      var q01, q12 := Mid(q.p0, q.p1), Mid(q.p1, q.p2);
      var m := Mid(q01, q12);
      QuadFlat(Quad(q.p0, q01, m), depth + 1);
      QuadFlat(Quad(m, q12, q.p2), depth + 1);
      CappedTwice(old(pts) + l, r, cap);
      assert old(pts) + l + r == old(pts) + (l + r);
    }
  }
}
