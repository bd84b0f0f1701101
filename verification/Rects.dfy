/** Axis-aligned screen rectangles (src/compositor/rect.h).

A rectangle denotes a set of pixels: `Has` is that meaning, and every operation is specified
by the pixels of its result. A rectangle with a non-positive side is empty.
*/
module Rects {

  datatype Rect = Rect(x: int, y: int, w: int, h: int) {
    predicate Empty() {
      w <= 0 || h <= 0
    }

    predicate Has(px: int, py: int) {
      x <= px < x + w && y <= py < y + h
    }

    /** Every pixel of this rectangle is a pixel of `r` (both non-empty). */
    predicate Inside(r: Rect) {
      r.x <= x && x + w <= r.x + r.w && r.y <= y && y + h <= r.y + r.h
    }
  }

  const NOTHING := Rect(0, 0, 0, 0)

  function Max(a: int, b: int): int {
    if a > b then a else b
  }

  function Min(a: int, b: int): int {
    if a < b then a else b
  }

  /** The C function reports success exactly when the rectangle it wrote is non-empty. */
  function Intersect(r: Rect, c: Rect): (res: Rect)
    ensures forall px, py :: res.Has(px, py) <==> r.Has(px, py) && c.Has(px, py)
    ensures res.Empty() ==> res == NOTHING
  {
    var x0 := Max(r.x, c.x);
    var y0 := Max(r.y, c.y);
    var x1 := Min(r.x + r.w, c.x + c.w);
    var y1 := Min(r.y + r.h, c.y + c.h);
    if x1 <= x0 || y1 <= y0 then NOTHING else Rect(x0, y0, x1 - x0, y1 - y0)
  }

  /** The least rectangle around both: it holds their pixels and sits inside every rectangle that does. */
  function Union(a: Rect, b: Rect): (res: Rect)
    ensures forall px, py :: a.Has(px, py) || b.Has(px, py) ==> res.Has(px, py)
    ensures !a.Empty() && !b.Empty() ==> a.Inside(res) && b.Inside(res) && !res.Empty()
    ensures forall c: Rect :: (a.Empty() || a.Inside(c)) && (b.Empty() || b.Inside(c)) ==> res.Empty() || res.Inside(c)
  {
    if a.Empty() then b
    else if b.Empty() then a
    else
      var x0 := Min(a.x, b.x);
      var y0 := Min(a.y, b.y);
      var x1 := Max(a.x + a.w, b.x + b.w);
      var y1 := Max(a.y + a.h, b.y + b.h);
      Rect(x0, y0, x1 - x0, y1 - y0)
  }

  predicate Overlaps(a: Rect, b: Rect) {
    !(a.x + a.w <= b.x || b.x + b.w <= a.x || a.y + a.h <= b.y || b.y + b.h <= a.y)
  }

  /** The overlap test decides whether two non-empty rectangles share a pixel. */
  lemma OverlapMeansSharedPixel(a: Rect, b: Rect)
    requires !a.Empty() && !b.Empty()
    ensures Overlaps(a, b) <==> exists px, py :: a.Has(px, py) && b.Has(px, py)
  {
    if Overlaps(a, b) {
      assert a.Has(Max(a.x, b.x), Max(a.y, b.y)) && b.Has(Max(a.x, b.x), Max(a.y, b.y));
    }
  }

  /** Half of the int32 range: rectangles whose edges stay here never overflow a C `int32_t`. */
  const LIMIT := 0x3FFF_FFFF

  predicate Bounded(r: Rect) {
    -LIMIT <= r.x <= LIMIT && -LIMIT <= r.y <= LIMIT && 0 <= r.w && 0 <= r.h
    && r.x + r.w <= LIMIT && r.y + r.h <= LIMIT
  }

  predicate Int32(v: int) {
    -0x8000_0000 <= v < 0x8000_0000
  }

  /** Bounded inputs give bounded outputs, and every sum and difference on the way fits in int32,
      so the unbounded integers used here agree with the machine's. */
  lemma BoundedStaysInt32(a: Rect, b: Rect)
    requires Bounded(a) && Bounded(b)
    ensures Bounded(Union(a, b)) && Bounded(Intersect(a, b))
    ensures Int32(a.x + a.w) && Int32(a.y + a.h)
    ensures Int32(Max(a.x + a.w, b.x + b.w) - Min(a.x, b.x)) && Int32(Max(a.y + a.h, b.y + b.h) - Min(a.y, b.y))
    ensures Int32(Min(a.x + a.w, b.x + b.w) - Max(a.x, b.x)) && Int32(Min(a.y + a.h, b.y + b.h) - Max(a.y, b.y))
  {
  }
}
