/** Q16.16 arithmetic and the animation engine (src/compositor/anim.h, src/compositor/anim.c). */
module Fixed {

  const ONE: int := 65536
  const HALF: int := 32768

  predicate Fits(x: int) {
    -0x8000_0000 <= x < 0x8000_0000
  }

  /** The cast to int32. */
  function Wrap32(x: int): (r: int)
    ensures Fits(r)
    ensures Fits(x) ==> r == x
  {
    (x + 0x8000_0000) % 0x1_0000_0000 - 0x8000_0000
  }

  /** Division that truncates towards zero. */
  function TruncDiv(a: int, b: int): int
    requires b != 0
  {
    if a >= 0 then a / b else -((-a) / b)
  }

  /** Rounded product; the shift right is arithmetic, so it floors. */
  function FxMul(a: int, b: int): int {
    Wrap32((a * b + HALF) / ONE)
  }

  function FxDiv(a: int, b: int): int {
    if b == 0 then 0 else Wrap32(TruncDiv(a * ONE, b))
  }

  /** FX_TO_INT_ROUND */
  function ToInt(f: int): int {
    (f + (if f >= 0 then HALF else -HALF)) / ONE
  }

  lemma MulByOne(d: int)
    requires Fits(d)
    ensures FxMul(ONE, d) == d && FxMul(d, ONE) == d
  {}

  lemma MulByMinusOne(d: int)
    requires Fits(-d)
    ensures FxMul(d, -ONE) == -d
  {
    assert d * -ONE == -d * ONE;
  }

  lemma MulByZero(d: int)
    ensures FxMul(0, d) == 0 && FxMul(d, 0) == 0
  {}

  /** The product is the nearest fixed-point value, a half going up. */
  lemma MulIsNearest(a: int, b: int)
    requires Fits((a * b + HALF) / ONE)
    ensures -HALF < FxMul(a, b) * ONE - a * b <= HALF
  {}

  lemma ProductOrder(a: int, b: int, c: int, d: int)
    requires 0 <= a <= c && 0 <= b <= d
    ensures 0 <= a * b <= c * d
  {
    assert a * b <= c * b;
    assert c * b <= c * d;
  }

  /** Products of values in the unit interval rise with their factors and stay in it. */
  lemma MulRises(a: int, b: int, c: int, d: int)
    requires 0 <= a <= c <= ONE && 0 <= b <= d <= ONE
    ensures 0 <= FxMul(a, b) <= FxMul(c, d) <= ONE
  {
    ProductOrder(a, b, c, d);
    ProductOrder(c, d, ONE, ONE);
  }

  /** The integer `r` is a nearest one to f / 65536. */
  predicate Nearest(f: int, r: int) {
    -HALF <= r * ONE - f <= HALF
  }

  /** Rounding gives a nearest integer for every f >= 0, but below zero only at exact halves. */
  lemma ToIntIsNearestIff(f: int)
    ensures Nearest(f, ToInt(f)) <==> f >= 0 || f % ONE == HALF
  {}

  /** Minus one rounds to minus two. */
  lemma MinusOneRoundsToMinusTwo()
    ensures ToInt(-ONE) == -2
  {}

  /** Between exact halves, a negative value comes out one below its nearest integer. */
  lemma NegativeIsOneLow(f: int)
    requires f < 0 && f % ONE != HALF
    ensures Nearest(f, ToInt(f) + 1)
  {}
}

/** The easing curves and the Bezier solver. */
module Easings {
  import opened Fixed
  import opened Division

  function InCubic(t: int): int {
    FxMul(FxMul(t, t), t)
  }

  function OutCubic(t: int): int {
    ONE - InCubic(ONE - t)
  }

  function InOutCubic(t: int): int {
    if t < HALF then 4 * InCubic(t) else ONE - 4 * InCubic(ONE - t)
  }

  const C1: int := 177003
  const C3: int := 111467

  function OutBack(t: int): int {
    var u := t - ONE;
    var u2 := FxMul(u, u);
    var u3 := FxMul(u2, u);
    ONE + FxMul(C1, u3) + FxMul(C3, u2)
  }

  /** cubic_bezier_axis: a unit cubic Bezier from 0 to 1 on one axis. */
  function Axis(t: int, p1: int, p2: int): int {
    var om := ONE - t;
    var t2 := FxMul(t, t);
    var om2 := FxMul(om, om);
    FxMul(3 * ONE, FxMul(FxMul(om2, t), p1)) + FxMul(3 * ONE, FxMul(FxMul(om, t2), p2)) + FxMul(t2, t)
  }

  lemma AxisEnds(p1: int, p2: int)
    ensures Axis(0, p1, p2) == 0 && Axis(ONE, p1, p2) == ONE
  {
    MulByZero(p1);
    MulByZero(p2);
    MulByZero(ONE);
    MulByZero(3 * ONE);
    MulByOne(ONE);
    hide FxMul;
  }

  /** With control points in the unit interval no product or sum leaves int32. */
  lemma AxisFits(t: int, p1: int, p2: int)
    requires 0 <= t <= ONE && 0 <= p1 <= ONE && 0 <= p2 <= ONE
    ensures 0 <= Axis(t, p1, p2) <= 7 * ONE
  {
    var om := ONE - t;
    var t2, om2 := FxMul(t, t), FxMul(om, om);
    MulRises(t, t, t, t);
    MulRises(om, om, om, om);
    MulRises(om2, t, om2, t);
    MulRises(om, t2, om, t2);
    MulRises(t2, t, t2, t);
    var a, b := FxMul(om2, t), FxMul(om, t2);
    MulRises(a, p1, a, p1);
    MulRises(b, p2, b, p2);
    TripleFits(FxMul(a, p1));
    TripleFits(FxMul(b, p2));
    hide FxMul;
  }

  lemma TripleFits(x: int)
    requires 0 <= x <= ONE
    ensures FxMul(3 * ONE, x) == 3 * x
  {}

  // ---------------------------------------------------------------- distance from the exact polynomials

  /** |x| <= e */
  predicate Within(x: int, e: int) {
    -e <= x <= e
  }

  lemma WithinScaled(x: int, e: int, b: int)
    requires Within(x, e) && 0 <= b <= ONE
    ensures Within(x * b, e * ONE)
  {
    if x >= 0 {
      ProductOrder(x, b, e, ONE);
    } else {
      ProductOrder(-x, b, e, ONE);
      assert -x * b == -(x * b);
    }
  }

  lemma WithinTimes(x: int, e: int, k: nat)
    requires Within(x, e)
    ensures Within(x * k, e * k)
  {
    ProductOrder(0, 0, e - x, k);
    ProductOrder(0, 0, e + x, k);
    assert (e - x) * k == e * k - x * k && (e + x) * k == e * k + x * k;
  }

  /** One more rounded factor: `a` stands for exact / k with error e / k, and so on. */
  lemma FactorNear(a: int, exact: int, k: nat, e: int, b: int)
    requires 0 <= a <= ONE && 0 <= b <= ONE && Within(a * k - exact, e)
    ensures 0 <= FxMul(a, b) <= ONE
    ensures Within(FxMul(a, b) * (ONE * k) - exact * b, HALF * k + e * ONE)
  {
    MulRises(a, b, a, b);
    MulIsNearest(a, b) by {
      ProductOrder(a, b, ONE, ONE);
    }
    var m := FxMul(a, b);
    hide FxMul;
    WithinTimes(m * ONE - a * b, HALF, k);
    WithinScaled(a * k - exact, e, b);
    FactorSplit(m, a, b, k, exact);
  }

  lemma FactorSplit(m: int, a: int, b: int, k: int, exact: int)
    ensures m * (ONE * k) - exact * b == (m * ONE - a * b) * k + (a * k - exact) * b
  {
    assert (m * ONE - a * b) * k == m * ONE * k - a * b * k;
    assert (a * k - exact) * b == a * k * b - exact * b;
    assert a * b * k == a * k * b;
  }

  const ONE2: nat := 65536 * 65536
  const ONE3: nat := 65536 * 65536 * 65536

  /** A product of three factors, rounded after each. */
  lemma CubeNear(a: int, b: int, c: int)
    requires 0 <= a <= ONE && 0 <= b <= ONE && 0 <= c <= ONE
    ensures 0 <= FxMul(FxMul(a, b), c) <= ONE
    ensures Within(FxMul(FxMul(a, b), c) * ONE2 - a * b * c, ONE2)
  {
    FactorNear(a, a, 1, 0, b);
    FactorNear(FxMul(a, b), a * b, ONE, HALF, c);
  }

  lemma FourthNear(x: int, exact: int, p: int)
    requires 0 <= x <= ONE && 0 <= p <= ONE && Within(x * ONE2 - exact, ONE2)
    ensures Within(2 * (FxMul(3 * ONE, FxMul(x, p)) * ONE3 - 3 * (exact * p)), 9 * ONE3)
  {
    FactorNear(x, exact, ONE2, ONE2, p);
    TripleFits(FxMul(x, p));
  }

  /** The exact cubic Bezier with end points 0 and ONE, times ONE^3. */
  function Bernstein(t: int, p1: int, p2: int): int {
    var om := ONE - t;
    3 * (om * om * t * p1) + 3 * (t * t * om * p2) + ONE * (t * t * t)
  }

  /** The fixed-point curve is within 10 / 65536 of the exact one. */
  lemma AxisNearBezier(t: int, p1: int, p2: int)
    requires 0 <= t <= ONE && 0 <= p1 <= ONE && 0 <= p2 <= ONE
    ensures Within(Axis(t, p1, p2) * ONE3 - Bernstein(t, p1, p2), 10 * ONE3)
  {
    hide *;
    var om := ONE - t;
    var a, b, c := FxMul(FxMul(om, om), t), FxMul(FxMul(t, t), om), FxMul(FxMul(t, t), t);
    CubeNear(om, om, t);
    CubeNear(t, t, om);
    CubeNear(t, t, t);
    FourthNear(a, om * om * t, p1);
    FourthNear(b, t * t * om, p2);
    AxisParts(t, p1, p2);
    SumNear(FxMul(3 * ONE, FxMul(a, p1)), FxMul(3 * ONE, FxMul(b, p2)), c, om * om * t * p1, t * t * om * p2, t * t * t);
  }

  lemma AxisParts(t: int, p1: int, p2: int)
    ensures var om := ONE - t;
            Axis(t, p1, p2) == FxMul(3 * ONE, FxMul(FxMul(FxMul(om, om), t), p1))
                               + FxMul(3 * ONE, FxMul(FxMul(FxMul(t, t), om), p2)) + FxMul(FxMul(t, t), t)
    ensures var om := ONE - t;
            Bernstein(t, p1, p2) == 3 * (om * om * t * p1) + 3 * (t * t * om * p2) + ONE * (t * t * t)
  {
    MulCommutes(ONE - t, FxMul(t, t));
    hide FxMul;
  }

  lemma SumNear(x: int, y: int, z: int, ex: int, ey: int, ez: int)
    requires Within(2 * (x * ONE3 - 3 * ex), 9 * ONE3) && Within(2 * (y * ONE3 - 3 * ey), 9 * ONE3)
    requires Within(z * ONE2 - ez, ONE2)
    ensures Within((x + y + z) * ONE3 - (3 * ex + 3 * ey + ONE * ez), 10 * ONE3)
  {}

  // ---------------------------------------------------------------- the exact curve rises

  lemma NotNegative(x: int, y: int)
    requires x >= 0 && y >= 0
    ensures x * y >= 0
  {}

  lemma SquareNotNegative(x: int)
    ensures x * x >= 0
  {}

  /** The exact curve with end-point control values rises: all four corner cases. */
  lemma CubeRises(t: int, s: int)
    requires 0 <= t <= s
    ensures s * s * s - t * t * t == (s - t) * (s * s + s * t + t * t) >= 0
  {
    NotNegative(s, t);
    SquareNotNegative(s);
    SquareNotNegative(t);
    NotNegative(s - t, s * s + s * t + t * t);
  }

  function First(o: int, t: int): int {
    3 * ((o - t) * (o - t) * t)
  }

  function Second(o: int, t: int): int {
    3 * (t * t * (o - t))
  }

  lemma {:induction false} FirstRises(o: int, t: int, s: int)
    requires t <= s
    ensures First(o, s) + s * s * s >= First(o, t) + t * t * t
    decreases s - t
  {
    hide First;
    if t < s {
      FirstRises(o, t, s - 1);
      FirstStep(o, s - 1);
    }
  }

  /** One unit further the corner case rises by 3 (o - 2 t - 1)^2 + 1. */
  lemma FirstStep(o: int, t: int)
    ensures First(o, t + 1) + (t + 1) * (t + 1) * (t + 1) >= First(o, t) + t * t * t
  {
    var a := o - t;
    FirstAt(a, t);
    FirstAt(a - 1, t + 1);
    StepOfFirst(a, t);
    CubeStep(t);
    SquareNotNegative(a - t - 1);
    assert (a - t - 1) * (a - t - 1) == a * a + t * t + 1 - 2 * (a * t) - 2 * a + 2 * t;
    hide First;
  }

  lemma FirstAt(a: int, t: int)
    ensures First(a + t, t) == 3 * (a * a * t)
  {}

  lemma StepOfFirst(a: int, t: int)
    ensures (a - 1) * (a - 1) * (t + 1) == a * a * t - 2 * (a * t) + t + a * a - 2 * a + 1
  {
    assert (a - 1) * (a - 1) == a * a - 2 * a + 1;
    assert (a * a - 2 * a + 1) * (t + 1) == (a * a - 2 * a + 1) * t + (a * a - 2 * a + 1);
    assert (a * a - 2 * a + 1) * t == a * a * t - 2 * (a * t) + t;
  }

  lemma CubeStep(t: int)
    ensures (t + 1) * (t + 1) * (t + 1) == t * t * t + 3 * (t * t) + 3 * t + 1
  {
    assert (t + 1) * (t + 1) == t * t + 2 * t + 1;
  }

  lemma SecondRises(o: int, t: int, s: int)
    requires 0 <= t <= s <= o
    ensures Second(o, s) + s * s * s >= Second(o, t) + t * t * t
  {
    var q := 3 * (o * (s + t)) - 2 * (s * s + s * t + t * t);
    assert q >= 0 by {
      NotNegative(o - s, s);
      NotNegative(o - t, t);
      NotNegative(o - s, t);
      assert (o - s) * s == o * s - s * s && (o - t) * t == o * t - t * t && (o - s) * t == o * t - s * t;
      NotNegative(o - t, s);
      assert (o - t) * s == o * s - s * t;
    }
    NotNegative(s - t, q);
    SecondIdentity(o, t, s);
  }

  lemma SecondIdentity(o: int, t: int, s: int)
    ensures Second(o, s) + s * s * s - (Second(o, t) + t * t * t)
         == (s - t) * (3 * (o * (s + t)) - 2 * (s * s + s * t + t * t))
  {
    assert t * t * (o - t) == o * t * t - t * t * t && s * s * (o - s) == o * s * s - s * s * s;
    hide Second;
    var q := 3 * (o * s) + 3 * (o * t) - 2 * (s * s) - 2 * (s * t) - 2 * (t * t);
    assert 3 * (o * (s + t)) - 2 * (s * s + s * t + t * t) == q;
    assert (s - t) * q == s * q - t * q;
    assert s * q == 3 * (o * s * s) + 3 * (o * s * t) - 2 * (s * s * s) - 2 * (s * s * t) - 2 * (s * t * t);
    assert t * q == 3 * (o * s * t) + 3 * (o * t * t) - 2 * (s * s * t) - 2 * (s * t * t) - 2 * (t * t * t);
  }

  lemma BothRise(o: int, t: int, s: int)
    requires 0 <= t <= s <= o
    ensures First(o, s) + Second(o, s) + s * s * s >= First(o, t) + Second(o, t) + t * t * t
  {
    CubeRises(o - s, o - t);
    BothAre(o, t);
    BothAre(o, s);
  }

  lemma BothAre(o: int, t: int)
    ensures First(o, t) + Second(o, t) + t * t * t == o * o * o - (o - t) * (o - t) * (o - t)
  {}

  /** Between the corners the curve is a mixture. */
  lemma Mixture(da: int, db: int, dc: int, p1: int, p2: int)
    requires 0 <= p1 <= ONE && 0 <= p2 <= ONE && dc >= 0 && da + dc >= 0 && db + dc >= 0 && da + db + dc >= 0
    ensures p1 * da + p2 * db + ONE * dc >= 0
  {
    var lo := if p1 <= p2 then p1 else p2;
    var hi := if p1 <= p2 then p2 else p1;
    var e := if p1 <= p2 then db else da;
    NotNegative(lo, da + db + dc);
    NotNegative(hi - lo, e + dc);
    NotNegative(ONE - hi, dc);
    assert lo * (da + db + dc) == lo * da + lo * db + lo * dc;
    assert (hi - lo) * (e + dc) == hi * e - lo * e + hi * dc - lo * dc;
    assert (ONE - hi) * dc == ONE * dc - hi * dc;
  }

  lemma BernsteinParts(t: int, p1: int, p2: int)
    ensures Bernstein(t, p1, p2) == p1 * First(ONE, t) + p2 * Second(ONE, t) + ONE * (t * t * t)
  {
    var a, b := (ONE - t) * (ONE - t) * t, t * t * (ONE - t);
    assert 3 * (a * p1) == p1 * (3 * a) && 3 * (b * p2) == p2 * (3 * b);
  }

  /** With unit control points the exact curve never falls. */
  lemma ExactRises(t: int, s: int, p1: int, p2: int)
    requires 0 <= t <= s <= ONE && 0 <= p1 <= ONE && 0 <= p2 <= ONE
    ensures Bernstein(t, p1, p2) <= Bernstein(s, p1, p2)
  {
    CubeRises(t, s);
    FirstRises(ONE, t, s);
    SecondRises(ONE, t, s);
    BothRise(ONE, t, s);
    hide *;
    BernsteinParts(t, p1, p2);
    BernsteinParts(s, p1, p2);
    MixtureOrder(First(ONE, t), First(ONE, s), Second(ONE, t), Second(ONE, s), t * t * t, s * s * s, p1, p2);
  }

  lemma MixtureOrder(a: int, a': int, b: int, b': int, c: int, c': int, p1: int, p2: int)
    requires 0 <= p1 <= ONE && 0 <= p2 <= ONE
    requires c <= c' && a + c <= a' + c' && b + c <= b' + c' && a + b + c <= a' + b' + c'
    ensures p1 * a + p2 * b + ONE * c <= p1 * a' + p2 * b' + ONE * c'
  {
    Mixture(a' - a, b' - b, c' - c, p1, p2);
    assert p1 * (a' - a) == p1 * a' - p1 * a && p2 * (b' - b) == p2 * b' - p2 * b;
  }

  /** The rounded curve can fall, by at most 20 / 65536. */
  lemma AxisDipsLittle(t: int, s: int, p1: int, p2: int)
    requires 0 <= t <= s <= ONE && 0 <= p1 <= ONE && 0 <= p2 <= ONE
    ensures Axis(s, p1, p2) >= Axis(t, p1, p2) - 20
  {
    hide *;
    ExactRises(t, s, p1, p2);
    AxisNearBezier(t, p1, p2);
    AxisNearBezier(s, p1, p2);
    NearOrder(Axis(t, p1, p2), Axis(s, p1, p2), Bernstein(t, p1, p2), Bernstein(s, p1, p2));
  }

  lemma NearOrder(x: int, y: int, ex: int, ey: int)
    requires Within(x * ONE3 - ex, 10 * ONE3) && Within(y * ONE3 - ey, 10 * ONE3) && ex <= ey
    ensures y >= x - 20
  {}

  /** It does fall: the curve is not monotone, even for unit control points. */
  lemma AxisDips()
    ensures Axis(2466, 0, ONE) == 273 && Axis(2467, 0, ONE) == 271
  {
    AxisAt(2466, 0, ONE, 93, 60697, 2284, 90, 3, 0, 90);
    AxisAt(2467, 0, ONE, 93, 60695, 2285, 89, 4, 0, 89);
  }

  /** The value of a rounded product. */
  lemma MulIs(a: int, b: int, v: int)
    requires v * ONE <= a * b + HALF < (v + 1) * ONE && Fits(v)
    ensures FxMul(a, b) == v
  {
    assert (a * b + HALF) / ONE == v;
  }

  predicate Product(a: int, b: int, v: int) {
    v * ONE <= a * b + HALF < (v + 1) * ONE && Fits(v)
  }

  /** The curve at one point, from the values of its products. */
  lemma AxisAt(t: int, p1: int, p2: int, t2: int, om2: int, x: int, y: int, z: int, a: int, b: int)
    requires Product(t, t, t2) && Product(ONE - t, ONE - t, om2)
    requires Product(om2, t, x) && Product(ONE - t, t2, y) && Product(t2, t, z)
    requires Product(x, p1, a) && Product(y, p2, b) && 0 <= a <= ONE && 0 <= b <= ONE
    ensures Axis(t, p1, p2) == 3 * a + 3 * b + z
  {
    MulIs(t, t, t2);
    MulIs(ONE - t, ONE - t, om2);
    MulIs(om2, t, x);
    MulIs(ONE - t, t2, y);
    MulIs(t2, t, z);
    MulIs(x, p1, a);
    MulIs(y, p2, b);
    hide FxMul;
    TripleFits(a);
    TripleFits(b);
  }

  lemma MulCommutes(a: int, b: int)
    ensures FxMul(a, b) == FxMul(b, a)
  {
    assert a * b == b * a;
  }

  // ---------------------------------------------------------------- bisection

  /** Halve [lo, hi] `rounds` times, keeping the half whose ends straddle `u`. */
  function Bisect(lo: int, hi: int, u: int, x1: int, x2: int, rounds: nat): int
    decreases rounds
  {
    if rounds == 0 then hi
    else
      var mid := (lo + hi) / 2;
      if Axis(mid, x1, x2) < u then Bisect(mid, hi, u, x1, x2, rounds - 1)
      else Bisect(lo, mid, u, x1, x2, rounds - 1)
  }

  const ROUNDS: nat := 24

  function ParamForX(u: int, x1: int, x2: int): int {
    if u <= 0 then 0 else if u >= ONE then ONE else Bisect(0, ONE, u, x1, x2, ROUNDS)
  }

  /** `h` is a place where the curve crosses `u` upwards within one unit. */
  predicate Crossing(h: int, u: int, x1: int, x2: int) {
    0 < h <= ONE && Axis(h, x1, x2) >= u && Axis(h - 1, x1, x2) < u
  }

  /** Enough halvings of a straddling interval end at a crossing, whatever the curve does between. */
  lemma {:induction false} BisectCrosses(lo: int, hi: int, u: int, x1: int, x2: int, rounds: nat, k: nat)
    requires 0 <= lo < hi <= ONE && Axis(lo, x1, x2) < u <= Axis(hi, x1, x2)
    requires hi - lo == Pow2(k) && k <= rounds
    ensures Crossing(Bisect(lo, hi, u, x1, x2, rounds), u, x1, x2)
    decreases rounds
  {
    hide Axis;
    if rounds > 0 {
      var mid := (lo + hi) / 2;
      if k == 0 {
        assert mid == lo;
        BisectCrosses(lo, hi, u, x1, x2, rounds - 1, 0);
      } else {
        assert mid == lo + Pow2(k - 1) && hi == mid + Pow2(k - 1);
        if Axis(mid, x1, x2) < u {
          BisectCrosses(mid, hi, u, x1, x2, rounds - 1, k - 1);
        } else {
          BisectCrosses(lo, mid, u, x1, x2, rounds - 1, k - 1);
        }
      }
    }
  }

  /** For every progress strictly inside (0, ONE) and every pair of control points. */
  lemma ParamIsCrossing(u: int, x1: int, x2: int)
    requires 0 < u < ONE
    ensures Crossing(ParamForX(u, x1, x2), u, x1, x2)
  {
    AxisEnds(x1, x2);
    assert Pow2(4) == 16;
    assert Pow2(8) == 256;
    assert Pow2(12) == 4096;
    assert Pow2(16) == ONE;
    BisectCrosses(0, ONE, u, x1, x2, ROUNDS, 16);
  }

  /** On the exact curve, the answer is past `u` and its predecessor short of it, up to 10 / 65536. */
  lemma ParamSolvesExactCurve(u: int, x1: int, x2: int)
    requires 0 < u < ONE && 0 <= x1 <= ONE && 0 <= x2 <= ONE
    ensures var h := ParamForX(u, x1, x2);
            Bernstein(h, x1, x2) >= (u - 10) * ONE3 && Bernstein(h - 1, x1, x2) < (u + 10) * ONE3
  {
    hide *;
    ParamIsCrossing(u, x1, x2);
    var h := ParamForX(u, x1, x2);
    CrossingFacts(h, u, x1, x2);
    AxisNearBezier(h, x1, x2);
    AxisNearBezier(h - 1, x1, x2);
    NearBounds(Axis(h, x1, x2), Bernstein(h, x1, x2), u);
    NearBounds(Axis(h - 1, x1, x2), Bernstein(h - 1, x1, x2), u);
  }

  lemma CrossingFacts(h: int, u: int, x1: int, x2: int)
    requires Crossing(h, u, x1, x2)
    ensures 0 < h <= ONE && Axis(h, x1, x2) >= u && Axis(h - 1, x1, x2) < u
  {
    hide Axis;
  }

  lemma NearBounds(x: int, exact: int, u: int)
    requires Within(x * ONE3 - exact, 10 * ONE3)
    ensures x >= u ==> exact >= (u - 10) * ONE3
    ensures x < u ==> exact < (u + 10) * ONE3
  {}

  /** The loop of ease_param_for_x. */
  method EaseParamForX(u: int, x1: int, x2: int) returns (h: int)
    ensures h == ParamForX(u, x1, x2)
    ensures 0 < u < ONE ==> Crossing(h, u, x1, x2)
  {
    hide Axis, Bisect, Crossing;
    if u <= 0 {
      return 0;
    }
    if u >= ONE {
      return ONE;
    }
    ParamIsCrossing(u, x1, x2);
    var lo;
    lo, h := 0, ONE;
    for i := 0 to ROUNDS
      invariant Bisect(lo, h, u, x1, x2, ROUNDS - i) == Bisect(0, ONE, u, x1, x2, ROUNDS)
    {
      BisectStep(lo, h, u, x1, x2, ROUNDS - i);
      var mid := (lo + h) / 2;
      if Axis(mid, x1, x2) < u {
        lo := mid;
      } else {
        h := mid;
      }
    }
    BisectEnd(lo, h, u, x1, x2);
  }

  lemma BisectStep(lo: int, hi: int, u: int, x1: int, x2: int, rounds: nat)
    requires rounds > 0
    ensures var mid := (lo + hi) / 2;
            Bisect(lo, hi, u, x1, x2, rounds)
            == if Axis(mid, x1, x2) < u then Bisect(mid, hi, u, x1, x2, rounds - 1)
               else Bisect(lo, mid, u, x1, x2, rounds - 1)
  {
    hide Axis;
  }

  lemma BisectEnd(lo: int, hi: int, u: int, x1: int, x2: int)
    ensures Bisect(lo, hi, u, x1, x2, 0) == hi
  {}

  // ---------------------------------------------------------------- all the curves

  datatype Curve =
    | Linear
    | CubicIn
    | CubicOut
    | CubicInOut
    | BackOut
    | Bezier(x1: int, y1: int, x2: int, y2: int)

  /** apply_ease */
  function Ease(c: Curve, t: int): int {
    match c
    case Linear => t
    case CubicIn => InCubic(t)
    case CubicOut => OutCubic(t)
    case CubicInOut => InOutCubic(t)
    case BackOut => OutBack(t)
    case Bezier(x1, y1, x2, y2) => Axis(ParamForX(t, x1, x2), y1, y2)
  }

  /** Every curve starts exactly at 0 and ends exactly at ONE. */
  lemma EaseEnds(c: Curve)
    ensures Ease(c, 0) == 0 && Ease(c, ONE) == ONE
  {
    if c.Bezier? {
      AxisEnds(c.y1, c.y2);
    } else {
      UnitProducts();
    }
    hide Axis, FxMul, Bisect;
  }

  lemma UnitProducts()
    ensures FxMul(ONE, ONE) == ONE && FxMul(0, 0) == 0 && FxMul(-ONE, -ONE) == ONE && FxMul(ONE, -ONE) == -ONE
    ensures FxMul(C1, 0) == FxMul(C3, 0) == 0 && FxMul(C1, -ONE) == -C1 && FxMul(C3, ONE) == C3
  {
    MulByOne(ONE);
    MulByOne(-ONE);
    MulByOne(C3);
    MulByZero(0);
    MulByZero(C1);
    MulByZero(C3);
    MulByMinusOne(-ONE);
    MulByMinusOne(C1);
    hide FxMul;
  }

  /** The curves that neither dip nor overshoot. */
  predicate Tame(c: Curve) {
    c.Linear? || c.CubicIn? || c.CubicOut? || c.CubicInOut?
  }

  lemma InCubicRises(t: int, u: int)
    requires 0 <= t <= u <= ONE
    ensures 0 <= InCubic(t) <= InCubic(u) <= ONE
  {
    MulRises(t, t, u, u);
    MulRises(FxMul(t, t), t, FxMul(u, u), u);
  }

  /** The rounded cube is within one unit of the exact one. */
  lemma InCubicNearCube(t: int)
    requires 0 <= t <= ONE
    ensures Within(InCubic(t) * ONE2 - t * t * t, ONE2)
  {
    CubeNear(t, t, t);
  }

  lemma InCubicAtHalf()
    ensures InCubic(HALF) == 8192
  {}

  /** Linear and the three cubics are monotone maps of [0, ONE] into itself. */
  lemma TameCurvesRise(c: Curve, t: int, u: int)
    requires Tame(c) && 0 <= t <= u <= ONE
    ensures 0 <= Ease(c, t) <= Ease(c, u) <= ONE
  {
    InCubicRises(t, u);
    InCubicRises(ONE - u, ONE - t);
    if c.CubicInOut? {
      InOutRises(t, u);
    }
    hide InCubic, InOutCubic;
  }

  lemma InOutRises(t: int, u: int)
    requires 0 <= t <= u <= ONE
    ensures 0 <= InOutCubic(t) <= InOutCubic(u) <= ONE
  {
    hide InCubic;
    InCubicAtHalf();
    InCubicRises(if t < HALF then t else HALF, if u < HALF then u else HALF);
    InCubicRises(if u < HALF then u else HALF, HALF);
    InCubicRises(if u < HALF then HALF else ONE - u, if t < HALF then HALF else ONE - t);
    InCubicRises(if t < HALF then HALF else ONE - t, HALF);
  }

  /** The symmetric cubic is its own half turn. */
  lemma InOutIsSymmetric(t: int)
    ensures InOutCubic(ONE - t) == ONE - InOutCubic(t)
  {
    InCubicAtHalf();
    hide InCubic;
  }

  // ---------------------------------------------------------------- the overshooting curve

  /** How far the curve is above ONE at distance `w` from the end. */
  function Excess(w: int): int {
    var u2 := (w * w + HALF) / ONE;
    var u3 := (HALF - u2 * w) / ONE;
    (C1 * u3 + HALF) / ONE + (C3 * u2 + HALF) / ONE
  }

  lemma SquareBounds(w: int)
    requires 0 <= w <= ONE
    ensures 0 <= (w * w + HALF) / ONE <= ONE
    ensures var u2 := (w * w + HALF) / ONE; 0 <= u2 * w <= ONE * ONE
  {
    ProductOrder(w, w, ONE, ONE);
    ProductOrder((w * w + HALF) / ONE, w, ONE, ONE);
  }

  lemma OutBackIsExcess(w: int)
    requires 0 <= w <= ONE
    ensures OutBack(ONE - w) == ONE + Excess(w)
  {
    hide FxMul, OutBack, Excess;
    SquareBounds(w);
    var u2 := (w * w + HALF) / ONE;
    var u3 := (HALF - u2 * w) / ONE;
    Signs(w, w);
    Signs(u2, w);
    MulIsQuotient(-w, -w);
    MulIsQuotient(u2, -w);
    MulIsQuotient(C1, u3);
    MulIsQuotient(C3, u2);
    OutBackFrom(w, u2, u3);
    ExcessFrom(w);
  }

  lemma OutBackFrom(w: int, u2: int, u3: int)
    requires FxMul(-w, -w) == u2 && FxMul(u2, -w) == u3
    ensures OutBack(ONE - w) == ONE + FxMul(C1, u3) + FxMul(C3, u2)
  {
    hide FxMul;
    assert ONE - w - ONE == -w;
  }

  lemma ExcessFrom(w: int)
    ensures var u2 := (w * w + HALF) / ONE;
            var u3 := (HALF - u2 * w) / ONE;
            Excess(w) == (C1 * u3 + HALF) / ONE + (C3 * u2 + HALF) / ONE
  {}

  lemma Signs(x: int, y: int)
    ensures -x * -y == x * y && x * -y == -(x * y)
  {}

  lemma MulIsQuotient(a: int, b: int)
    requires Fits((a * b + HALF) / ONE)
    ensures FxMul(a, b) == (a * b + HALF) / ONE
  {}

  /** Rounding moves the excess by less than C1 / 2 + ONE, in units of 1 / ONE^2. */
  lemma ExcessBounds(w: int)
    ensures var u2 := (w * w + HALF) / ONE;
            var exact := C3 * ONE * u2 - C1 * (u2 * w);
            exact - C1 * HALF - ONE * ONE < Excess(w) * (ONE * ONE) <= exact + C1 * HALF + ONE * ONE
  {
    var u2 := (w * w + HALF) / ONE;
    var p := u2 * w;
    var u3 := (HALF - p) / ONE;
    assert -p - HALF < u3 * ONE <= -p + HALF;
  }

  /** A large enough leading term makes the excess positive. */
  lemma ExcessPositive(w: int, low: nat, gap: nat)
    requires (w * w + HALF) / ONE >= low && C3 * ONE - C1 * w >= gap
    requires low * gap >= C1 * HALF + ONE * ONE
    ensures Excess(w) > 0
  {
    var u2 := (w * w + HALF) / ONE;
    ExcessBounds(w);
    ExactForm(u2, w);
    hide Excess;
    ProductOrder(low, gap, u2, C3 * ONE - C1 * w);
  }

  lemma ExcessNotPositive(w: int, low: nat, gap: nat)
    requires (w * w + HALF) / ONE >= low && C1 * w - C3 * ONE >= gap
    requires low * gap > C1 * HALF
    ensures Excess(w) <= 0
  {
    var u2 := (w * w + HALF) / ONE;
    var f := C1 * w - C3 * ONE;
    ExcessBounds(w);
    ExactForm(u2, w);
    hide Excess;
    ProductOrder(low, gap, u2, f);
    assert u2 * -f == -(u2 * f);
  }

  lemma ExactForm(u2: int, w: int)
    ensures C3 * ONE * u2 - C1 * (u2 * w) == u2 * (C3 * ONE - C1 * w)
  {
    assert u2 * (C3 * ONE - C1 * w) == u2 * (C3 * ONE) - u2 * (C1 * w);
  }

  lemma SquareAtLeast(w: int, v: nat)
    requires w >= v
    ensures (w * w + HALF) / ONE >= (v * v + HALF) / ONE
  {
    ProductOrder(v, v, w, w);
  }

  /** Close to the end the square rounds to nothing, then to one. */
  lemma ExcessNearEnd(w: int)
    requires 0 <= w <= 313
    ensures Excess(w) > 0 <==> w >= 182
  {
    if w <= 181 {
      ProductOrder(w, w, 181, 181);
      assert (w * w + HALF) / ONE == 0;
    } else {
      ProductOrder(182, 182, w, w);
      ProductOrder(w, w, 313, 313);
      assert (w * w + HALF) / ONE == 1;
    }
  }

  lemma ExcessInside(w: int)
    requires 314 <= w <= 41265
    ensures Excess(w) > 0
  {
    if w <= 404 {
      SquareAtLeast(w, 314);
      ExcessPositive(w, 2, 7_000_000_000);
    } else if w <= 20000 {
      SquareAtLeast(w, 405);
      ExcessPositive(w, 3, 3_700_000_000);
    } else if w <= 40000 {
      SquareAtLeast(w, 20000);
      ExcessPositive(w, 6000, 220_000_000);
    } else {
      SquareAtLeast(w, 40000);
      ExcessPositive(w, 24000, 1_000_000);
    }
  }

  lemma ExcessValue(w: int, u2: int, u3: int)
    requires u2 * ONE <= w * w + HALF < (u2 + 1) * ONE
    requires u3 * ONE <= HALF - u2 * w < (u3 + 1) * ONE
    ensures Excess(w) == (C1 * u3 + HALF) / ONE + (C3 * u2 + HALF) / ONE
  {
    assert (w * w + HALF) / ONE == u2;
    assert (HALF - u2 * w) / ONE == u3;
  }

  /** Where the excess changes sign. */
  lemma ExcessAtTurn(w: int)
    requires 41266 <= w <= 41272
    ensures Excess(w) > 0 <==> w <= 41270
  {
    hide Excess;
    if
    case w == 41266 => ExcessValue(w, 25984, -16361);
    case w == 41267 => ExcessValue(w, 25985, -16362);
    case w == 41268 => ExcessValue(w, 25986, -16363);
    case w == 41269 => ExcessValue(w, 25988, -16365);
    case w == 41270 => ExcessValue(w, 25989, -16366);
    case w == 41271 => ExcessValue(w, 25990, -16367);
    case w == 41272 => ExcessValue(w, 25991, -16368);
  }

  lemma ExcessFarOut(w: int)
    requires 41273 <= w <= ONE
    ensures Excess(w) <= 0
  {
    SquareAtLeast(w, 41273);
    ExcessNotPositive(w, 25991, 300_000);
  }

  /** The overshooting curve leaves [.., ONE] exactly between these two progress values. */
  lemma OutBackOvershootsIff(t: int)
    requires 0 <= t <= ONE
    ensures OutBack(t) > ONE <==> 24266 <= t <= 65354
  {
    var w := ONE - t;
    OutBackIsExcess(w);
    hide Excess, OutBack;
    if w <= 313 {
      ExcessNearEnd(w);
    } else if w <= 41265 {
      ExcessInside(w);
    } else if w <= 41272 {
      ExcessAtTurn(w);
    } else {
      ExcessFarOut(w);
    }
  }

  lemma SquareAtMost(w: int)
    requires 0 <= w <= ONE - 1
    ensures 0 <= (w * w + HALF) / ONE <= ONE - 2
  {
    ProductOrder(w, w, ONE - 1, ONE - 1);
  }

  /** The curve never dips below zero either. */
  lemma ExcessFloor(w: int)
    requires 0 <= w <= ONE - 1
    ensures Excess(w) > -ONE
  {
    var u2, f := (w * w + HALF) / ONE, C1 * w - C3 * ONE;
    SquareAtMost(w);
    ExcessBounds(w);
    ExactForm(u2, w);
    hide Excess;
    assert u2 * -f == -(u2 * f);
    if f >= 0 {
      ProductOrder(u2, f, ONE - 2, ONE * ONE - C1);
    } else {
      ProductOrder(0, 0, u2, -f);
    }
  }

  /** The exact range of the overshooting curve: never negative, above ONE exactly between two values. */
  lemma OutBackRange(t: int)
    requires 0 <= t <= ONE
    ensures 0 <= OutBack(t)
    ensures OutBack(t) <= ONE <==> !(24266 <= t <= 65354)
  {
    OutBackOvershootsIff(t);
    if t == 0 {
      EaseEnds(BackOut);
    } else {
      OutBackIsExcess(ONE - t);
      ExcessFloor(ONE - t);
    }
    hide Excess, OutBack;
  }

  lemma BernsteinInUnit(t: int, p1: int, p2: int)
    requires 0 <= t <= ONE && 0 <= p1 <= ONE && 0 <= p2 <= ONE
    ensures 0 <= Bernstein(t, p1, p2) <= ONE * ONE3
  {
    ExactRises(0, t, p1, p2);
    ExactRises(t, ONE, p1, p2);
    assert Bernstein(0, p1, p2) == 0 && Bernstein(ONE, p1, p2) == ONE * ONE3;
    hide Bernstein;
  }

  /** With unit control points the rounded curve leaves the unit interval by at most 10 / 65536. */
  lemma AxisRange(t: int, p1: int, p2: int)
    requires 0 <= t <= ONE && 0 <= p1 <= ONE && 0 <= p2 <= ONE
    ensures 0 <= Axis(t, p1, p2) <= ONE + 10
  {
    hide *;
    AxisFits(t, p1, p2);
    AxisNearBezier(t, p1, p2);
    BernsteinInUnit(t, p1, p2);
    UnitBound(Axis(t, p1, p2), Bernstein(t, p1, p2));
  }

  lemma UnitBound(x: int, exact: int)
    requires Within(x * ONE3 - exact, 10 * ONE3) && exact <= ONE * ONE3
    ensures x <= ONE + 10
  {}

  /** The control values of a curve lie in the unit interval. */
  predicate UnitCurve(c: Curve) {
    c.Bezier? ==> 0 <= c.y1 <= ONE && 0 <= c.y2 <= ONE
  }

  lemma ParamInUnit(u: int, x1: int, x2: int)
    ensures 0 <= ParamForX(u, x1, x2) <= ONE
  {
    if 0 < u < ONE {
      ParamIsCrossing(u, x1, x2);
      CrossingFacts(ParamForX(u, x1, x2), u, x1, x2);
    }
    hide Bisect;
  }

  /** The range of every curve with unit control values: four stay inside, the overshooting one leaves it
      exactly between two progress values and only upwards, a Bezier curve by at most 10 / 65536. */
  lemma EaseRange(c: Curve, t: int)
    requires 0 <= t <= ONE && UnitCurve(c)
    ensures 0 <= Ease(c, t)
    ensures Tame(c) ==> Ease(c, t) <= ONE
    ensures c.BackOut? ==> (Ease(c, t) <= ONE <==> !(24266 <= t <= 65354))
    ensures c.Bezier? ==> Ease(c, t) <= ONE + 10
  {
    if Tame(c) {
      TameCurvesRise(c, t, t);
    } else if c.BackOut? {
      OutBackRange(t);
    } else {
      ParamInUnit(t, c.x1, c.x2);
      AxisRange(ParamForX(t, c.x1, c.x2), c.y1, c.y2);
    }
    hide Axis, ParamForX, OutBack, InCubic;
  }

  lemma CubicParam(h: int)
    requires 0 < h <= ONE && InCubic(h - 1) < InCubic(h) < ONE
    ensures ParamForX(InCubic(h), 0, 0) == h
  {
    hide *;
    var u := InCubic(h);
    InCubicRises(0, h - 1);
    ParamIsCrossing(u, 0, 0);
    var k := ParamForX(u, 0, 0);
    CrossingFacts(k, u, 0, 0);
    AxisOfZeros(k);
    AxisOfZeros(k - 1);
    OnlyCrossing(k, h);
  }

  lemma OnlyCrossing(k: int, h: int)
    requires 0 < k <= ONE && 0 < h <= ONE
    requires InCubic(k - 1) < InCubic(h) <= InCubic(k) && InCubic(h - 1) < InCubic(h)
    ensures k == h
  {
    hide InCubic;
    if k < h {
      InCubicRises(k, h - 1);
    } else if k > h {
      InCubicRises(h, k - 1);
    }
  }

  lemma AxisOfZeros(t: int)
    requires 0 <= t <= ONE
    ensures Axis(t, 0, 0) == InCubic(t)
  {
    var om := ONE - t;
    MulByZero(FxMul(FxMul(om, om), t));
    MulByZero(FxMul(om, FxMul(t, t)));
    MulByZero(3 * ONE);
    hide FxMul;
  }

  /** It does leave the interval: this Bezier curve with unit control points reaches 65538. */
  lemma BezierOvershoots()
    ensures Ease(Bezier(0, ONE, 0, ONE), 64992) == ONE + 2
  {
    hide Axis, InCubic, ParamForX, FxMul;
    CubeAt(65354, 65173, 64992);
    CubeAt(65353, 65171, 64989);
    CubicParam(65354);
    AxisAt(65354, ONE, ONE, 65173, 1, 1, 181, 64992, 1, 181);
  }

  lemma CubeAt(t: int, t2: int, z: int)
    requires Product(t, t, t2) && Product(t2, t, z)
    ensures InCubic(t) == z
  {
    MulIs(t, t, t2);
    MulIs(t2, t, z);
    hide FxMul;
  }

  // ---------------------------------------------------------------- which curve is which

  /** The exact overshooting curve above ONE, times ONE^3, at distance `w` from the end. */
  function ExactBack(w: int): int {
    C3 * ONE * (w * w) - C1 * (w * w * w)
  }

  lemma BackNearExact(w: int)
    requires 0 <= w <= ONE
    ensures Within((OutBack(ONE - w) - ONE) * ONE3 - ExactBack(w), 4 * ONE3)
  {
    hide OutBack, Excess;
    OutBackIsExcess(w);
    ExcessBounds(w);
    var u2 := (w * w + HALF) / ONE;
    var gap := C3 * ONE - C1 * w;
    var e := u2 * ONE - w * w;
    assert Within(e, HALF);
    GapBound(w, e);
    BackSplit(w, u2);
    BackSum(Excess(w), C3 * ONE * u2 - C1 * (u2 * w), gap * e, ExactBack(w));
  }

  lemma GapBound(w: int, e: int)
    requires 0 <= w <= ONE && Within(e, HALF)
    ensures Within((C3 * ONE - C1 * w) * e, C3 * ONE * HALF)
  {
    var gap := C3 * ONE - C1 * w;
    assert Within(gap, C3 * ONE);
    if gap >= 0 {
      WithinTimes(e, HALF, gap);
      ProductOrder(HALF, gap, HALF, C3 * ONE);
    } else {
      WithinTimes(e, HALF, -gap);
      ProductOrder(HALF, -gap, HALF, C3 * ONE);
      assert e * -gap == -(gap * e);
    }
  }

  lemma BackSplit(w: int, u2: int)
    ensures ONE * (C3 * ONE * u2 - C1 * (u2 * w)) - ExactBack(w) == (C3 * ONE - C1 * w) * (u2 * ONE - w * w)
  {
    var a, b := u2 * ONE, w * w;
    assert (C3 * ONE - C1 * w) * (a - b) == C3 * ONE * (a - b) - C1 * w * (a - b);
    assert C1 * w * (a - b) == C1 * (w * a) - C1 * (w * b);
    assert w * a == ONE * (u2 * w) && w * b == w * w * w;
  }

  lemma BackSum(x: int, near: int, d: int, exact: int)
    requires near - C1 * HALF - ONE * ONE < x * (ONE * ONE) <= near + C1 * HALF + ONE * ONE
    requires ONE * near - exact == d && Within(d, C3 * ONE * HALF)
    ensures Within(x * ONE3 - exact, 4 * ONE3)
  {
    assert x * ONE3 == ONE * (x * (ONE * ONE));
  }

  /**
   * Every named curve is the one its name says, up to rounding: the identity; the cube; the cube from the end; four
   * times the cube in either half; and the cubic that overshoots, 1 + 2.70084 u^3 + 1.70085 u^2 with u = t - 1.
   */
  lemma EaseNearExact(c: Curve, t: int)
    requires 0 <= t <= ONE && !c.Bezier?
    ensures var v, w := Ease(c, t), ONE - t;
            match c
            case Linear => v == t
            case CubicIn => Within(v * ONE2 - t * t * t, ONE2)
            case CubicOut => Within((ONE - v) * ONE2 - w * w * w, ONE2)
            case CubicInOut =>
              if t < HALF then Within(v * ONE2 - 4 * (t * t * t), 4 * ONE2)
              else Within((ONE - v) * ONE2 - 4 * (w * w * w), 4 * ONE2)
            case BackOut => Within((v - ONE) * ONE3 - ExactBack(w), 4 * ONE3)
  {
    hide InCubic, OutBack, ExactBack;
    InCubicNearCube(t);
    InCubicNearCube(ONE - t);
    BackNearExact(ONE - t);
  }

  /**
   * A Bezier easing is the curve with the given control points: at a parameter where the exact abscissa passes the
   * progress, up to 10 / 65536, its value is the exact ordinate, up to 10 / 65536.
   */
  lemma BezierEaseIs(x1: int, y1: int, x2: int, y2: int, t: int)
    requires 0 < t < ONE && 0 <= x1 <= ONE && 0 <= x2 <= ONE && 0 <= y1 <= ONE && 0 <= y2 <= ONE
    ensures exists h :: OnBezier(h, t, Ease(Bezier(x1, y1, x2, y2), t), x1, y1, x2, y2)
  {
    hide *;
    var h := ParamForX(t, x1, x2);
    ParamIsCrossing(t, x1, x2);
    CrossingFacts(h, t, x1, x2);
    ParamSolvesExactCurve(t, x1, x2);
    AxisNearBezier(h, y1, y2);
    BezierCase(x1, y1, x2, y2, t);
    OnBezierFrom(h, t, Axis(h, y1, y2), x1, y1, x2, y2);
  }

  predicate OnBezier(h: int, t: int, v: int, x1: int, y1: int, x2: int, y2: int) {
    && 0 < h <= ONE && Bernstein(h, x1, x2) >= (t - 10) * ONE3 && Bernstein(h - 1, x1, x2) < (t + 10) * ONE3
    && Within(v * ONE3 - Bernstein(h, y1, y2), 10 * ONE3)
  }

  lemma OnBezierFrom(h: int, t: int, v: int, x1: int, y1: int, x2: int, y2: int)
    requires 0 < h <= ONE && Bernstein(h, x1, x2) >= (t - 10) * ONE3 && Bernstein(h - 1, x1, x2) < (t + 10) * ONE3
    requires Within(v * ONE3 - Bernstein(h, y1, y2), 10 * ONE3)
    ensures OnBezier(h, t, v, x1, y1, x2, y2)
  {
    hide Bernstein;
  }

  lemma BezierCase(x1: int, y1: int, x2: int, y2: int, t: int)
    ensures Ease(Bezier(x1, y1, x2, y2), t) == Axis(ParamForX(t, x1, x2), y1, y2)
  {
    hide Axis, ParamForX;
  }
}
