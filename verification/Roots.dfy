/** Integer square roots and the rounded-corner mask (src/compositor/blit.c, src/compositor/path_raster.c). */
module Roots {
  import opened Pixels
  import opened Division

  /** The floor square root. */
  function FloorSqrt(n: nat): (r: nat)
    ensures r * r <= n < (r + 1) * (r + 1)
  {
    if n == 0 then 0
    else
      var r := FloorSqrt(n - 1);
      if (r + 1) * (r + 1) <= n then r + 1 else r
  }

  lemma SquareOrder(a: nat, b: nat)
    requires a * a < b * b
    ensures a < b
  {
  }

  lemma RootIsUnique(n: nat, r: nat)
    requires r * r <= n < (r + 1) * (r + 1)
    ensures r == FloorSqrt(n)
  {
    SquareOrder(r, FloorSqrt(n) + 1);
    SquareOrder(FloorSqrt(n), r + 1);
  }

  lemma RootIsMonotone(m: nat, n: nat)
    requires m <= n
    ensures FloorSqrt(m) <= FloorSqrt(n)
  {
    SquareOrder(FloorSqrt(m), FloorSqrt(n) + 1);
  }

  // ---------------------------------------------------------------- Newton's iteration

  lemma MeanBound(r: int, s: int)
    ensures (2 * s - r) * r <= s * s
  {
    assert s * s - (2 * s - r) * r == (s - r) * (s - r) >= 0;
  }

  lemma NewtonStaysAbove(n: nat, r: nat, s: nat)
    requires r > 0 && s * s <= n
    ensures (r + n / r) / 2 >= s
  {
    DivisionBounds(n, r);
    MeanBound(r, s);
    FactorOrder(2 * s - r, n / r + 1, r);
  }

  lemma QuotientBelow(n: nat, r: nat)
    requires r > 0 && n / r >= r
    ensures r * r <= n
  {
    DivisionBounds(n, r);
    assert r * r <= (n / r) * r;
  }

  lemma RootBelow(n: nat)
    ensures FloorSqrt(n) <= n
    ensures n > 0 ==> FloorSqrt(n) > 0
  {
    var s := FloorSqrt(n);
    assert s <= s * s || s == 0;
  }

  lemma ProductGrows(q: nat, r: nat)
    requires 0 < r
    ensures q <= q * r
  {
  }

  lemma QuotientSmall(n: nat, r: nat, q: nat)
    requires 0 < r && q * r <= n
    ensures q <= n
  {
    ProductGrows(q, r);
  }

  /** Newton's iteration from above: it stops, at the floor square root of every positive argument;
      no sum exceeds twice the argument. */
  method Isqrt64(n: int) returns (root: int)
    ensures n <= 0 ==> root == 0
    ensures n > 0 ==> root == FloorSqrt(n)
  {
    if n <= 0 {
      return 0;
    }
    var r := n;
    ghost var s := FloorSqrt(n);
    RootBelow(n);
    while true
      invariant 0 < s <= r <= n
      decreases r
    {
      DivisionBounds(n, r);
      QuotientSmall(n, r, n / r);
      assert r + n / r <= 2 * n;
      var nr := (r + n / r) / 2;
      NewtonStaysAbove(n, r, s);
      if nr >= r {
        QuotientBelow(n, r);
        SquareOrder(r, s + 1);
        return r;
      }
      r := nr;
    }
  }

  // ---------------------------------------------------------------- digit by digit

  /** Taking or leaving digit `p` of the partial root `a` keeps the root inside the next window. */
  lemma DigitStep(x: nat, a: nat, p: nat)
    requires a * a <= x < (a + 2 * p) * (a + 2 * p)
    ensures x - a * a >= a * (2 * p) + p * p <==> (a + p) * (a + p) <= x
    ensures x - a * a - (a * (2 * p) + p * p) == x - (a + p) * (a + p)
  {
  }

  lemma Halves(a: nat, p: nat)
    ensures (a * (2 * p)) / 2 == a * p
    ensures (a * (2 * p)) / 2 + p * p == (a + p) * p
  {
    assert a * (2 * p) == 2 * (a * p);
  }

  lemma FirstBit()
    ensures Pow2(15) == 0x8000 && Bit(15) == 0x4000_0000
  {
    assert Pow2(5) == 32;
    assert Pow2(10) == 1024;
    assert 0x8000 * 0x8000 == 0x4000_0000;
  }

  lemma SumFits(a: nat, p: nat)
    requires a + 2 * p <= 0x1_0000 && p > 0
    ensures a * (2 * p) + p * p < 0x1_0000_0000
  {
    assert a * (2 * p) <= 0x1_0000 * (2 * p) - 2 * p * (2 * p);
    assert 2 * p <= 0x1_0000 && p * p <= 2 * p * (2 * p);
    assert 0x1_0000 * (2 * p) <= 0x1_0000 * 0x1_0000;
  }

  /** What holds before digit `p` is tried: `a` is the partial root of `x0`, `x` what is left of it,
      and `r` the partial root shifted as the C code keeps it. */
  ghost predicate Partial(x0: nat, a: nat, p: nat, x: int, r: int) {
    && p > 0 && a + 2 * p <= 0x1_0000
    && a * a <= x0 < (a + 2 * p) * (a + 2 * p)
    && x == x0 - a * a && r == a * (2 * p)
  }

  /** What holds after digit `p` was tried. */
  ghost predicate Tried(x0: nat, b: nat, p: nat, x: int, r: int) {
    b + p <= 0x1_0000 && b * b <= x0 < (b + p) * (b + p) && x == x0 - b * b && r == b * p
  }

  lemma TryDigit(x0: nat, a: nat, p: nat, x: int, r: int)
    requires Partial(x0, a, p, x, r)
    ensures r >= 0 && r + p * p < 0x1_0000_0000
    ensures x >= r + p * p ==> Tried(x0, a + p, p, x - (r + p * p), r / 2 + p * p)
    ensures x < r + p * p ==> Tried(x0, a, p, x, r / 2)
  {
    DigitStep(x0, a, p);
    Halves(a, p);
    SumFits(a, p);
    assert (a + p) + p == a + 2 * p;
  }

  lemma NextDigit(x0: nat, b: nat, p: nat, x: int, r: int)
    requires Tried(x0, b, p, x, r) && p > 0
    ensures p == 1 ==> r == b && b * b <= x0 < (b + 1) * (b + 1)
    ensures p % 2 == 0 ==> Partial(x0, b, p / 2, x, r)
  {
    if p % 2 == 0 {
      var q := p / 2;
      assert p == 2 * q;
    }
  }

  /** The value of the C variable `bit` while digit `Pow2(m)` is tried. */
  ghost function Bit(m: nat): nat {
    Pow2(m) * Pow2(m)
  }

  ghost predicate IsRoot(x0: nat, r: nat) {
    r * r <= x0 < (r + 1) * (r + 1)
  }

  lemma NextBit(m: nat)
    ensures Bit(m) > 0
    ensures m > 0 ==> Pow2(m) == 2 * Pow2(m - 1) && Bit(m) == 4 * Bit(m - 1) && Bit(m - 1) > 0
    ensures m == 0 ==> Pow2(m) == 1 && Bit(m) == 1
  {
    if m > 0 {
      var p := Pow2(m - 1);
      assert (2 * p) * (2 * p) == 4 * (p * p);
    }
  }

  lemma FirstWindow(x: nat, m: nat)
    requires x < 4 * Bit(m) && m <= 15
    ensures Partial(x, 0, Pow2(m), x, 0)
  {
    hide Pow2;
    var p := Pow2(m);
    assert (0 + 2 * p) * (0 + 2 * p) == 4 * (p * p);
    Pow2Grows(m, 15);
    FirstBit();
  }

  /** One turn of the digit loop. */
  lemma DigitTurn(x0: nat, a: nat, m: nat, x: int, r: int)
    requires Partial(x0, a, Pow2(m), x, r)
    ensures r >= 0 && r + Bit(m) < 0x1_0000_0000
    ensures var take := x >= r + Bit(m);
            var b := if take then a + Pow2(m) else a;
            var x' := if take then x - (r + Bit(m)) else x;
            var r' := if take then r / 2 + Bit(m) else r / 2;
            if m > 0 then Partial(x0, b, Pow2(m - 1), x', r') else r' == b && IsRoot(x0, b)
  {
    hide Pow2, Partial, Tried;
    var p := Pow2(m);
    assert Bit(m) == p * p;
    TryDigit(x0, a, p, x, r);
    hide Bit;
    if x >= r + Bit(m) {
      DigitDone(x0, a + p, m, x - (r + Bit(m)), r / 2 + Bit(m));
    } else {
      DigitDone(x0, a, m, x, r / 2);
    }
  }

  lemma DigitDone(x0: nat, b: nat, m: nat, x: int, r: int)
    requires Tried(x0, b, Pow2(m), x, r)
    ensures if m > 0 then Partial(x0, b, Pow2(m - 1), x, r) else r == b && IsRoot(x0, b)
  {
    NextBit(m);
    NextDigit(x0, b, Pow2(m), x, r);
    hide Pow2, Tried, Partial, Bit;
  }

  lemma Pow2Grows(m: nat, n: nat)
    requires m <= n
    ensures Pow2(m) <= Pow2(n)
  {
    if m < n {
      Pow2Grows(m, n - 1);
    }
  }

  /** The bit-by-bit root, for every unsigned 32-bit argument, with no sum beyond 32 bits. */
  method IsqrtU32(x0: nat) returns (r: nat)
    requires x0 < 0x1_0000_0000
    ensures r == FloorSqrt(x0)
  {
    hide *;
    FirstBit();
    var x := x0;
    r := 0;
    var bit := 0x4000_0000;
    ghost var m: nat := 15;
    while bit > x
      invariant m <= 15 && bit >= 0
      invariant bit != 0 ==> bit == Bit(m) && x < 4 * bit
      invariant bit == 0 ==> x == 0
    {
      NextBit(m);
      bit := bit / 4;
      m := if m > 0 then m - 1 else 0;
    }
    ghost var a: nat := 0;
    if bit != 0 {
      FirstWindow(x, m);
    } else {
      RootOfZero();
    }
    while bit != 0
      invariant bit >= 0
      invariant bit != 0 ==> bit == Bit(m) && Partial(x0, a, Pow2(m), x, r)
      invariant bit == 0 ==> r == a && IsRoot(x0, a)
      decreases bit
    {
      DigitTurn(x0, a, m, x, r);
      NextBit(m);
      var rb := r + bit;
      assert rb < 0x1_0000_0000;
      if x >= rb {
        x := x - rb;
        r := r / 2 + bit;
        a := a + Pow2(m);
      } else {
        r := r / 2;
      }
      bit := bit / 4;
      m := if m > 0 then m - 1 else 0;
    }
    TheRoot(x0, r);
  }

  lemma RootOfZero()
    ensures IsRoot(0, 0)
  {
  }

  lemma TheRoot(x0: nat, r: nat)
    requires IsRoot(x0, r)
    ensures r == FloorSqrt(x0)
  {
    RootIsUnique(x0, r);
  }

  // ---------------------------------------------------------------- corner mask

  /** Distance of a corner pixel's centre from the arc's centre, in sixteenths of a pixel, squared. */
  function CornerD2(lx: int, ly: int, w: int, h: int, r: int): (d: nat) {
    var ccx := if lx < r then (2 * r - 1) * 8 else (2 * (w - r) + 1) * 8;
    var ccy := if ly < r then (2 * r - 1) * 8 else (2 * (h - r) + 1) * 8;
    var dx := lx * 16 + 8 - ccx;
    var dy := ly * 16 + 8 - ccy;
    Squares(dx, dy);
    dx * dx + dy * dy
  }

  lemma Squares(x: int, y: int)
    ensures x * x + y * y >= 0
  {
    assert x * x >= 0 && y * y >= 0;
  }

  /** Coverage as a function of the distance: 255 inside, 0 outside, a ramp one pixel wide. */
  function Ramp(d16: nat, r: nat): (m: Byte)
    ensures d16 + 8 <= 16 * r ==> m == 255
    ensures d16 >= 16 * r + 8 ==> m == 0
  {
    var r16 := r * 16;
    if d16 + 8 <= r16 then 255
    else if d16 >= r16 + 8 then 0
    else
      Clamp(((r16 + 8 - d16) * 255 + 8) / 16)
  }

  predicate InCorner(lx: int, ly: int, w: int, h: int, r: int) {
    (lx < r || lx >= w - r) && (ly < r || ly >= h - r)
  }

  function CornerMask(lx: int, ly: int, w: int, h: int, r: int): (m: Byte)
    ensures !(0 <= lx < w && 0 <= ly < h) ==> m == 0
    ensures 0 <= lx < w && 0 <= ly < h && (r <= 0 || !InCorner(lx, ly, w, h, r)) ==> m == 255
  {
    if lx < 0 || ly < 0 || lx >= w || ly >= h then 0
    else if r <= 0 then 255
    else if !InCorner(lx, ly, w, h, r) then 255
    else Ramp(FloorSqrt(CornerD2(lx, ly, w, h, r)), r)
  }

  /** How many whole pixels a corner pixel lies beyond the innermost pixel of its arc, in one coordinate. */
  function Beyond(l: int, w: int, r: int): int {
    if l < r then r - 1 - l else l - (w - r)
  }

  /** `m` is the coverage of a pixel whose centre is `d` sixteenths of a pixel from the centre of an arc of
      radius `r`: all within half a pixel inside the arc, none from half a pixel outside it, and linear in
      between, rounded. */
  predicate Shaded(m: Byte, d: nat, r: nat) {
    if d + 8 <= 16 * r then m == 255
    else if d >= 16 * r + 8 then m == 0
    else -8 <= 16 * m - 255 * (16 * r + 8 - d) <= 8
  }

  /**
   * The mask of a corner pixel is the shade of its distance from the arc's centre. That centre is the centre of
   * the pixel (r - 1, r - 1) counted from the corner, so the distance is that of whole pixel steps, and `d` is
   * its floor in sixteenths.
   */
  lemma MaskIsShade(lx: int, ly: int, w: int, h: int, r: nat, d: nat)
    requires 0 <= lx < w && 0 <= ly < h && r > 0 && InCorner(lx, ly, w, h, r)
    requires var x, y := Beyond(lx, w, r), Beyond(ly, h, r);
             d * d <= 256 * (x * x + y * y) < (d + 1) * (d + 1)
    ensures Shaded(CornerMask(lx, ly, w, h, r), d, r)
  {
    var x, y := Beyond(lx, w, r), Beyond(ly, h, r);
    StepsAre(lx, ly, w, h, r);
    RootIsUnique(256 * (x * x + y * y), d);
    hide CornerD2, FloorSqrt, Beyond;
    RampShades(d, r);
  }

  lemma RampShades(d: nat, r: nat)
    ensures Shaded(Ramp(d, r), d, r)
  {}

  lemma StepsAre(lx: int, ly: int, w: int, h: int, r: int)
    ensures var x, y := Beyond(lx, w, r), Beyond(ly, h, r);
            CornerD2(lx, ly, w, h, r) == 256 * (x * x + y * y)
  {
    var x, y := Beyond(lx, w, r), Beyond(ly, h, r);
    DistanceIs(lx, ly, w, h, r);
    assert Offset(lx, w, r) == 16 * x || Offset(lx, w, r) == -16 * x;
    assert Offset(ly, h, r) == 16 * y || Offset(ly, h, r) == -16 * y;
    hide CornerD2, Offset, Beyond;
    SixteenSquared(x);
    SixteenSquared(y);
  }

  lemma SixteenSquared(x: int)
    ensures (16 * x) * (16 * x) == 256 * (x * x) && (-16 * x) * (-16 * x) == 256 * (x * x)
  {}

  lemma RampFalls(d: nat, e: nat, r: nat)
    requires d <= e
    ensures Ramp(e, r) <= Ramp(d, r)
  {
  }

  /** The mask is the same in all four corners when the arcs do not overlap. */
  lemma MaskIsMirrored(lx: int, ly: int, w: int, h: int, r: int)
    requires 2 * r <= w && 2 * r <= h
    ensures CornerMask(w - 1 - lx, ly, w, h, r) == CornerMask(lx, ly, w, h, r)
    ensures CornerMask(lx, h - 1 - ly, w, h, r) == CornerMask(lx, ly, w, h, r)
  {
    if 0 <= lx < w && 0 <= ly < h && r > 0 && InCorner(lx, ly, w, h, r) {
      DistanceIsMirrored(lx, ly, w, h, r);
    }
    hide CornerD2, Ramp, FloorSqrt;
  }

  lemma DistanceIsMirrored(lx: int, ly: int, w: int, h: int, r: int)
    requires 2 * r <= w && 2 * r <= h && 0 <= lx < w && 0 <= ly < h && r > 0 && InCorner(lx, ly, w, h, r)
    ensures CornerD2(w - 1 - lx, ly, w, h, r) == CornerD2(lx, ly, w, h, r)
    ensures CornerD2(lx, h - 1 - ly, w, h, r) == CornerD2(lx, ly, w, h, r)
  {
    DistanceIs(lx, ly, w, h, r);
    DistanceIs(w - 1 - lx, ly, w, h, r);
    DistanceIs(lx, h - 1 - ly, w, h, r);
    Mirrored(lx, w, r);
    Mirrored(ly, h, r);
    hide CornerD2, Offset;
    SameSquare(Offset(lx, w, r));
    SameSquare(Offset(ly, h, r));
  }

  /** One coordinate of the way from the arc's centre, in sixteenths of a pixel. */
  function Offset(l: int, w: int, r: int): int {
    if l < r then 16 * (l - r + 1) else 16 * (l - (w - r))
  }

  lemma DistanceIs(lx: int, ly: int, w: int, h: int, r: int)
    ensures CornerD2(lx, ly, w, h, r) == Offset(lx, w, r) * Offset(lx, w, r) + Offset(ly, h, r) * Offset(ly, h, r)
  {
    assert lx * 16 + 8 - (if lx < r then (2 * r - 1) * 8 else (2 * (w - r) + 1) * 8) == Offset(lx, w, r);
    assert ly * 16 + 8 - (if ly < r then (2 * r - 1) * 8 else (2 * (h - r) + 1) * 8) == Offset(ly, h, r);
    hide Offset;
  }

  lemma Mirrored(l: int, w: int, r: int)
    requires 2 * r <= w && (l < r || l >= w - r)
    ensures Offset(w - 1 - l, w, r) == -Offset(l, w, r)
  {}

  lemma SameSquare(x: int)
    ensures -x * -x == x * x
  {}

  lemma SquareFalls(x: int, y: int)
    requires 0 <= x <= y
    ensures x * x <= y * y
  {
  }

  lemma CornerDistance(lx: int, ly: int, w: int, h: int, r: int)
    requires lx < r && ly < r
    ensures CornerD2(lx, ly, w, h, r) == 16 * (r - 1 - lx) * (16 * (r - 1 - lx)) + 16 * (r - 1 - ly) * (16 * (r - 1 - ly))
  {
    var dx, dy := 16 * (r - 1 - lx), 16 * (r - 1 - ly);
    assert lx * 16 + 8 - (2 * r - 1) * 8 == -dx && ly * 16 + 8 - (2 * r - 1) * 8 == -dy;
    assert dx * dx == (-dx) * (-dx) && dy * dy == (-dy) * (-dy);
  }

  /** Among all corner pixels, of whichever corners, the one farther from its arc's centre never has more
      coverage. */
  lemma MaskFallsWithDistance(lx: int, ly: int, kx: int, ky: int, w: int, h: int, r: int)
    requires 0 <= lx < w && 0 <= ly < h && 0 <= kx < w && 0 <= ky < h && r > 0
    requires InCorner(lx, ly, w, h, r) && InCorner(kx, ky, w, h, r)
    requires CornerD2(lx, ly, w, h, r) <= CornerD2(kx, ky, w, h, r)
    ensures CornerMask(kx, ky, w, h, r) <= CornerMask(lx, ly, w, h, r)
  {
    hide FloorSqrt, CornerD2, Ramp;
    RootIsMonotone(CornerD2(lx, ly, w, h, r), CornerD2(kx, ky, w, h, r));
    RampFalls(FloorSqrt(CornerD2(lx, ly, w, h, r)), FloorSqrt(CornerD2(kx, ky, w, h, r)), r);
  }

  /** In particular, going outwards in the top-left corner never raises the coverage. */
  lemma MaskFallsOutwards(lx: int, ly: int, kx: int, ky: int, w: int, h: int, r: int)
    requires 0 <= kx <= lx < r && 0 <= ky <= ly < r && 2 * r <= w && 2 * r <= h
    ensures CornerMask(kx, ky, w, h, r) <= CornerMask(lx, ly, w, h, r)
  {
    hide CornerD2, CornerMask;
    CornerDistance(lx, ly, w, h, r);
    CornerDistance(kx, ky, w, h, r);
    SquareFalls(16 * (r - 1 - lx), 16 * (r - 1 - kx));
    SquareFalls(16 * (r - 1 - ly), 16 * (r - 1 - ky));
    MaskFallsWithDistance(lx, ly, kx, ky, w, h, r);
  }

  lemma SquareFits(d: int)
    requires -1024 <= d <= 1024
    ensures 0 <= d * d <= 1024 * 1024
  {
    var e := if d >= 0 then d else -d;
    assert d * d == e * e;
    SquareFalls(e, 1024);
  }

  /** The mask as the C code computes it, with the loop's square root. */
  method RoundedCornerMask(lx: int, ly: int, w: int, h: int, r: int) returns (m: Byte)
    requires w <= 16384 && h <= 16384 && r <= 64
    ensures m == CornerMask(lx, ly, w, h, r)
  {
    hide FloorSqrt;
    if lx < 0 || ly < 0 || lx >= w || ly >= h {
      return 0;
    }
    if r <= 0 {
      return 255;
    }
    var inLeft, inRight := lx < r, lx >= w - r;
    var inTop, inBot := ly < r, ly >= h - r;
    if !((inLeft || inRight) && (inTop || inBot)) {
      return 255;
    }
    var ccx := if inLeft then (2 * r - 1) * 8 else (2 * (w - r) + 1) * 8;
    var ccy := if inTop then (2 * r - 1) * 8 else (2 * (h - r) + 1) * 8;
    var dx := lx * 16 + 8 - ccx;
    var dy := ly * 16 + 8 - ccy;
    SquareFits(dx);
    SquareFits(dy);
    var d2 := dx * dx + dy * dy;
    assert d2 == CornerD2(lx, ly, w, h, r);
    var d16 := IsqrtU32(d2);
    var r16 := r * 16;
    if d16 + 8 <= r16 {
      return 255;
    }
    if d16 >= r16 + 8 {
      return 0;
    }
    m := Clamp(((r16 + 8 - d16) * 255 + 8) / 16);
  }
}
