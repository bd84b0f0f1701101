/** Pixel words and the 8-bit blending arithmetic (src/compositor/blit.c, src/compositor/blit_simd.c).

A 32-bit word is held as its four bytes. The destination is XRGB: its top byte is ignored by the
display, so results are compared by `Color`.
*/
module Pixels {

  type Byte = b: int | 0 <= b < 256

  datatype Rgb = Rgb(r: Byte, g: Byte, b: Byte)

  datatype Pixel = Pixel(a: Byte, r: Byte, g: Byte, b: Byte) {
    function Color(): Rgb {
      Rgb(r, g, b)
    }
  }

  lemma RoundedDivision(n: int)
    requires 0 <= n <= 255 * 255
    ensures var t := n + 128; (t + t / 256) / 256 == (n + 127) / 255 <= 255
  {
    var q, r := (n + 127) / 255, (n + 127) % 255;
    var t := n + 128;
    assert t == 256 * q + (r + 1 - q);
    if r + 1 >= q {
      assert t / 256 == q;
    } else {
      assert t / 256 == q - 1;
    }
  }

  lemma ProductRange(a: Byte, b: Byte)
    ensures 0 <= a * b <= 255 * 255
  {
    assert a * b <= 255 * b;
  }

  function Mul8(a: Byte, b: Byte): Byte {
    ProductRange(a, b);
    RoundedDivision(a * b);
    var t := a * b + 128;
    (t + t / 256) / 256
  }

  /** The division-free product is the rounded quotient by 255. */
  lemma Mul8IsRoundedQuotient(a: Byte, b: Byte)
    ensures Mul8(a, b) == (a * b + 127) / 255
  {
    ProductRange(a, b);
    RoundedDivision(a * b);
  }

  /** The intermediate sums of `Mul8` fit in an unsigned 16-bit lane. */
  lemma Mul8FitsIn16Bits(a: Byte, b: Byte)
    ensures var t := a * b + 128; 0 <= a * b < t < 0x1_0000 && t + t / 256 < 0x1_0000
  {
    ProductRange(a, b);
  }

  lemma ScaledByte(s: Byte, a: int)
    requires a >= 0
    ensures 0 <= s * a <= 255 * a
  {
  }

  lemma Mul8Ends(s: Byte)
    ensures Mul8(s, 255) == s && Mul8(s, 0) == 0
  {
    Mul8IsRoundedQuotient(s, 255);
  }

  lemma RoundedPair(p: int, q: int)
    requires 0 <= p && 0 <= q && p + q <= 255 * 255
    ensures var m := (p + 127) / 255 + (q + 127) / 255; m <= 255 && -255 < 255 * m - (p + q) < 255
  {
  }

  /** The two rounded products never add up to more than 255, so the clamps of the C code never
      fire, and their sum is within one step of the exact weighted mean. */
  lemma ChannelSum(s: Byte, d: Byte, a: Byte)
    ensures Mul8(s, a) + Mul8(d, 255 - a) <= 255
    ensures -255 < 255 * (Mul8(s, a) + Mul8(d, 255 - a)) - (s * a + d * (255 - a)) < 255
    ensures a == 255 ==> Mul8(s, a) + Mul8(d, 255 - a) == s
    ensures a == 0 ==> Mul8(s, a) + Mul8(d, 255 - a) == d
  {
    hide Mul8;
    ScaledByte(s, a);
    ScaledByte(d, 255 - a);
    RoundedPair(s * a, d * (255 - a));
    Mul8IsRoundedQuotient(s, a);
    Mul8IsRoundedQuotient(d, 255 - a);
    Mul8Ends(s);
    Mul8Ends(d);
  }

  /** Full weight: three factors of 255. */
  const FULL: int := 255 * 255 * 255

  /** Channel `o` is within two steps of the exact mean of `s` and `d` with weight `w` of `FULL` on `s`. */
  predicate Mixed(o: Byte, s: Byte, d: Byte, w: int) {
    -2 * FULL < FULL * o - (s * w + d * (FULL - w)) < 2 * FULL
  }

  /** The rounded product is off by less than half a step. */
  lemma Mul8Error(a: Byte, b: Byte)
    ensures -127 <= 255 * Mul8(a, b) - a * b <= 127
  {
    Mul8IsRoundedQuotient(a, b);
  }

  /** Two products in a row are off by less than one step. */
  lemma TwoProductsError(a: Byte, b: Byte, m: Byte)
    ensures -65025 < 65025 * Mul8(Mul8(a, b), m) - a * b * m < 65025
    ensures a == 0 || b == 0 || m == 0 ==> Mul8(Mul8(a, b), m) == 0
    ensures a == 255 && b == 255 && m == 255 ==> Mul8(Mul8(a, b), m) == 255
  {
    Mul8Error(a, b);
    Mul8Error(Mul8(a, b), m);
    Mul8Ends(m);
    Mul8Zero(a, b);
    Mul8Zero(Mul8(a, b), m);
    Mul8Ends(Mul8(a, b));
    Mul8Ends(a);
    hide Mul8;
    ErrorsAdd(a * b, Mul8(a, b), m, Mul8(Mul8(a, b), m));
  }

  lemma Mul8Zero(a: Byte, b: Byte)
    ensures a == 0 || b == 0 ==> Mul8(a, b) == 0
  {}

  lemma ErrorsAdd(p: int, q: Byte, m: Byte, r: Byte)
    requires -127 <= 255 * q - p <= 127 && -127 <= 255 * r - q * m <= 127
    ensures -65025 < 65025 * r - p * m < 65025
  {
    var e := 255 * q - p;
    assert (255 * q - p) * m == 255 * (q * m) - p * m;
    ScaledBound(e, m, 127);
  }

  /** `|e| <= n` scales to `|e * m| <= 255 * n`. */
  lemma ScaledBound(e: int, m: Byte, n: int)
    requires -n <= e <= n
    ensures -(255 * n) <= e * m <= 255 * n
  {
    assert (n - e) * m >= 0 && (n + e) * m >= 0;
    assert (n - e) * m == n * m - e * m && (n + e) * m == n * m + e * m;
    assert n * m <= n * 255;
  }

  lemma MixError(s: Byte, d: Byte, a: Byte, w: int, o: Byte)
    requires -65025 < 65025 * a - w < 65025
    requires -255 < 255 * o - (s * a + d * (255 - a)) < 255
    ensures Mixed(o, s, d, w)
  {
    var e := 65025 * a - w;
    ScaledBound(e, s, 65024);
    ScaledBound(e, d, 65024);
    Rescaled(s, d, a, w);
    var near := s * a + d * (255 - a);
    assert FULL * o - 65025 * near == 65025 * (255 * o - near);
    DifferenceBound(e, s, d);
  }

  lemma Rescaled(s: Byte, d: Byte, a: Byte, w: int)
    ensures 65025 * (s * a + d * (255 - a)) - (s * w + d * (FULL - w)) == (65025 * a - w) * (s - d)
  {
    assert s * (65025 * a - w) == 65025 * (s * a) - s * w;
    assert d * (65025 * a - w) == 65025 * (d * a) - d * w;
    assert (65025 * a - w) * (s - d) == s * (65025 * a - w) - d * (65025 * a - w);
    assert d * (255 - a) == 255 * d - d * a && d * (FULL - w) == FULL * d - d * w;
  }

  lemma DifferenceBound(e: int, s: Byte, d: Byte)
    requires -65025 < e < 65025
    ensures -FULL < e * (s - d) < FULL
  {
    if s >= d {
      ScaledBound(e, s - d, 65024);
    } else {
      ScaledBound(e, d - s, 65024);
      assert e * (s - d) == -(e * (d - s));
    }
  }

  predicate MixedRgb(o: Rgb, s: Rgb, d: Rgb, w: int) {
    Mixed(o.r, s.r, d.r, w) && Mixed(o.g, s.g, d.g, w) && Mixed(o.b, s.b, d.b, w)
  }

  /** One channel of source-over. */
  function Channel(s: Byte, d: Byte, a: Byte): (m: Byte)
    ensures a == 255 ==> m == s
    ensures a == 0 ==> m == d
  {
    ChannelSum(s, d, a);
    Mul8(s, a) + Mul8(d, 255 - a)
  }

  /** The colour that results from laying `c` with coverage `a` over `d`. */
  function Over(c: Rgb, a: Byte, d: Rgb): (o: Rgb)
    ensures a == 255 ==> o == c
    ensures a == 0 ==> o == d
  {
    Rgb(Channel(c.r, d.r, a), Channel(c.g, d.g, a), Channel(c.b, d.b, a))
  }

  /** A channel blended with a weight that is off by less than one step is within two steps of the mean. */
  lemma ChannelMixes(s: Byte, d: Byte, a: Byte, w: int)
    requires -65025 < 65025 * a - w < 65025
    ensures Mixed(Channel(s, d, a), s, d, w)
  {
    ChannelSum(s, d, a);
    assert Channel(s, d, a) == Mul8(s, a) + Mul8(d, 255 - a);
    hide Mul8, Mixed;
    MixError(s, d, a, w, Channel(s, d, a));
  }

  lemma OverMixes(c: Rgb, a: Byte, d: Rgb, w: int)
    requires -65025 < 65025 * a - w < 65025
    ensures MixedRgb(Over(c, a, d), c, d, w)
  {
    hide Mixed, Channel;
    ChannelMixes(c.r, d.r, a, w);
    ChannelMixes(c.g, d.g, a, w);
    ChannelMixes(c.b, d.b, a, w);
  }

  function Clamp(v: int): (c: Byte)
    requires v >= 0
    ensures v <= 255 ==> c == v
  {
    if v > 255 then 255 else v
  }

  /** The shared tail of every scalar blend: shortcuts for 0 and 255, otherwise three clamped sums. */
  function BlendPixel(d: Pixel, s: Pixel, sa: Byte): (o: Pixel)
    ensures o.Color() == Over(s.Color(), sa, d.Color())
    ensures o.a == if sa == 0 then d.a else 255
  {
    ChannelSum(s.r, d.r, sa);
    ChannelSum(s.g, d.g, sa);
    ChannelSum(s.b, d.b, sa);
    if sa == 0 then d
    else if sa == 255 then s.(a := 255)
    else
      var inv := 255 - sa;
      Pixel(255, Clamp(Mul8(s.r, sa) + Mul8(d.r, inv)), Clamp(Mul8(s.g, sa) + Mul8(d.g, inv)),
            Clamp(Mul8(s.b, sa) + Mul8(d.b, inv)))
  }

  function CopyPixel(s: Pixel): Pixel {
    s.(a := 255)
  }

  function AlphaPixel(d: Pixel, s: Pixel, ga: Byte): Pixel {
    BlendPixel(d, s, Mul8(s.a, ga))
  }

  function CopyMaskedPixel(d: Pixel, s: Pixel, mask: Byte): Pixel {
    BlendPixel(d, s, mask)
  }

  function AlphaMaskedPixel(d: Pixel, s: Pixel, ga: Byte, mask: Byte): Pixel {
    BlendPixel(d, s, Mul8(Mul8(s.a, ga), mask))
  }
}

/** The SSE2 and AVX2 row kernels, lane by lane, against the scalar pixel functions. */
module SimdRows {
  import opened Pixels

  // ---------------------------------------------------------------- 128-bit registers

  /** Sixteen bytes. */
  predicate Bytes16(v: seq<int>) {
    |v| == 16 && forall i :: 0 <= i < 16 ==> 0 <= v[i] < 256
  }

  /** Eight unsigned 16-bit lanes. */
  predicate Words8(v: seq<int>) {
    |v| == 8 && forall i :: 0 <= i < 8 ==> 0 <= v[i] < 0x1_0000
  }

  function Set1(w: int): (r: seq<int>)
    ensures |r| == 8 && forall i :: 0 <= i < 8 ==> r[i] == w
  {
    seq(8, _ => w)
  }

  function UnpackLo(v: seq<int>): (r: seq<int>)
    requires Bytes16(v)
    ensures Words8(r) && forall i :: 0 <= i < 8 ==> r[i] == v[i]
  {
    seq(8, i requires 0 <= i < 8 => v[i])
  }

  function UnpackHi(v: seq<int>): (r: seq<int>)
    requires Bytes16(v)
    ensures Words8(r) && forall i :: 0 <= i < 8 ==> r[i] == v[8 + i]
  {
    seq(8, i requires 0 <= i < 8 => v[8 + i])
  }

  /** shufflelo with _MM_SHUFFLE(3, 3, 3, 3): lane 3 over lanes 0 to 3. */
  function ShuffleLo3(v: seq<int>): (r: seq<int>)
    requires |v| == 8
    ensures |r| == 8 && forall i :: 0 <= i < 8 ==> r[i] == v[if i < 4 then 3 else i]
  {
    seq(8, i requires 0 <= i < 8 => v[if i < 4 then 3 else i])
  }

  function ShuffleHi3(v: seq<int>): (r: seq<int>)
    requires |v| == 8
    ensures |r| == 8 && forall i :: 0 <= i < 8 ==> r[i] == v[if i < 4 then i else 7]
  {
    seq(8, i requires 0 <= i < 8 => v[if i < 4 then i else 7])
  }

  function MulLane(a: int, b: int): int {
    (a * b) % 0x1_0000
  }

  function AddLane(a: int, b: int): int {
    (a + b) % 0x1_0000
  }

  function SubLane(a: int, b: int): int {
    (a - b) % 0x1_0000
  }

  function MulLo(a: seq<int>, b: seq<int>): (r: seq<int>)
    requires |a| == |b| == 8
    ensures |r| == 8 && forall i :: 0 <= i < 8 ==> r[i] == MulLane(a[i], b[i])
  {
    seq(8, i requires 0 <= i < 8 => MulLane(a[i], b[i]))
  }

  function Add16(a: seq<int>, b: seq<int>): (r: seq<int>)
    requires |a| == |b| == 8
    ensures |r| == 8 && forall i :: 0 <= i < 8 ==> r[i] == AddLane(a[i], b[i])
  {
    seq(8, i requires 0 <= i < 8 => AddLane(a[i], b[i]))
  }

  function Sub16(a: seq<int>, b: seq<int>): (r: seq<int>)
    requires |a| == |b| == 8
    ensures |r| == 8 && forall i :: 0 <= i < 8 ==> r[i] == SubLane(a[i], b[i])
  {
    seq(8, i requires 0 <= i < 8 => SubLane(a[i], b[i]))
  }

  function Srl8(a: seq<int>): (r: seq<int>)
    requires |a| == 8
    ensures |r| == 8 && forall i :: 0 <= i < 8 ==> r[i] == a[i] / 256
  {
    seq(8, i requires 0 <= i < 8 => a[i] / 256)
  }

  /** packus reads each lane as signed and saturates it to a byte. */
  function Saturate(w: int): (b: int)
    ensures 0 <= b < 256
    ensures 0 <= w < 256 ==> b == w
  {
    if w >= 0x8000 then 0 else if w > 255 then 255 else if w < 0 then 0 else w
  }

  function PackUs(lo: seq<int>, hi: seq<int>): (r: seq<int>)
    requires |lo| == |hi| == 8
    ensures Bytes16(r)
    ensures forall i :: 0 <= i < 16 ==> r[i] == Saturate(if i < 8 then lo[i] else hi[i - 8])
  {
    var r := seq(16, i requires 0 <= i < 16 => Saturate(if i < 8 then lo[i] else hi[i - 8]));
    assert forall i :: 0 <= i < 16 ==> r[i] == Saturate(if i < 8 then lo[i] else hi[i - 8]);
    r
  }

  /** Or with 0xff000000 in each 32-bit element. */
  function OrAlpha(v: seq<int>): (r: seq<int>)
    requires Bytes16(v)
    ensures Bytes16(r) && forall i :: 0 <= i < 16 ==> r[i] == if i % 4 == 3 then 255 else v[i]
  {
    seq(16, i requires 0 <= i < 16 => if i % 4 == 3 then 255 else v[i])
  }

  function ByteOf(p: Pixel, c: int): Byte {
    if c == 0 then p.b else if c == 1 then p.g else if c == 2 then p.r else p.a
  }

  /** Four little-endian pixels. */
  function Load(px: seq<Pixel>): (v: seq<int>)
    requires |px| == 4
    ensures Bytes16(v)
    ensures forall i :: 0 <= i < 16 ==> v[i] == ByteOf(px[i / 4], i % 4)
  {
    seq(16, i requires 0 <= i < 16 => ByteOf(px[i / 4], i % 4))
  }

  function Store(v: seq<int>): (px: seq<Pixel>)
    requires Bytes16(v)
    ensures |px| == 4
    ensures forall i :: 0 <= i < 4 ==> px[i] == Pixel(v[4 * i + 3], v[4 * i + 2], v[4 * i + 1], v[4 * i])
  {
    seq(4, i requires 0 <= i < 4 => Pixel(v[4 * i + 3], v[4 * i + 2], v[4 * i + 1], v[4 * i]))
  }

  // ---------------------------------------------------------------- one block of four pixels

  function Mul8Lanes(ab: seq<int>): (r: seq<int>)
    requires |ab| == 8
    ensures |r| == 8
  {
    var t := Add16(ab, Set1(128));
    Srl8(Add16(t, Srl8(t)))
  }

  /** Four channels of two pixels: mul8(s, ae) + mul8(d, 255 - ae) in every lane. */
  function BlendHalf(s: seq<int>, d: seq<int>, ga: Byte): (r: seq<int>)
    requires |s| == |d| == 8
    ensures |r| == 8
  {
    var a := ShuffleHi3(ShuffleLo3(s));
    var ae := Mul8Lanes(MulLo(a, Set1(ga)));
    var inv := Sub16(Set1(255), ae);
    Add16(Mul8Lanes(MulLo(s, ae)), Mul8Lanes(MulLo(d, inv)))
  }

  /** The packed bytes before the alpha byte is forced. */
  function Packed(s8: seq<int>, d8: seq<int>, ga: Byte): (r: seq<int>)
    requires Bytes16(s8) && Bytes16(d8)
    ensures Bytes16(r)
  {
    PackUs(BlendHalf(UnpackLo(s8), UnpackLo(d8), ga), BlendHalf(UnpackHi(s8), UnpackHi(d8), ga))
  }

  function BlendBlock(s: seq<Pixel>, d: seq<Pixel>, ga: Byte): (r: seq<Pixel>)
    requires |s| == |d| == 4
    ensures |r| == 4
  {
    Store(OrAlpha(Packed(Load(s), Load(d), ga)))
  }

  /** No lane wraps: the vector product equals the scalar one in every lane that holds two bytes. */
  lemma Mul8LaneIsScalar(x: seq<int>, y: seq<int>, i: int)
    requires |x| == |y| == 8 && 0 <= i < 8 && 0 <= x[i] < 256 && 0 <= y[i] < 256
    ensures Mul8Lanes(MulLo(x, y))[i] == Mul8(x[i], y[i])
  {
    Mul8FitsIn16Bits(x[i], y[i]);
    hide MulLo, Add16, Srl8, Set1;
    var ab := MulLo(x, y);
    assert ab[i] == x[i] * y[i];
    var t := Add16(ab, Set1(128));
    assert t[i] == ab[i] + 128;
    assert Add16(t, Srl8(t))[i] == t[i] + t[i] / 256;
  }

  lemma BlendHalfIsScalar(s: seq<int>, d: seq<int>, ga: Byte, i: int)
    requires |s| == |d| == 8 && 0 <= i < 8
    requires forall j :: 0 <= j < 8 ==> 0 <= s[j] < 256 && 0 <= d[j] < 256
    ensures BlendHalf(s, d, ga)[i] == Channel(s[i], d[i], Mul8(s[if i < 4 then 3 else 7], ga))
  {
    hide Mul8;
    hide Mul8Lanes;
    hide MulLane;
    var a := ShuffleHi3(ShuffleLo3(s));
    Mul8LaneIsScalar(a, Set1(ga), i);
    var ae := Mul8Lanes(MulLo(a, Set1(ga)));
    var inv := Sub16(Set1(255), ae);
    assert inv[i] == 255 - ae[i];
    Mul8LaneIsScalar(s, ae, i);
    Mul8LaneIsScalar(d, inv, i);
  }

  /** Byte `k` of the packed result is the blended channel of pixel `k / 4`. */
  lemma PackedChannel(s8: seq<int>, d8: seq<int>, ga: Byte, k: int, alpha: Byte)
    requires Bytes16(s8) && Bytes16(d8) && 0 <= k < 16 && alpha == s8[k / 4 * 4 + 3]
    ensures Packed(s8, d8, ga)[k] == Channel(s8[k], d8[k], Mul8(alpha, ga))
  {
    hide Mul8;
    hide Channel;
    hide BlendHalf;
    if k < 8 {
      BlendHalfIsScalar(UnpackLo(s8), UnpackLo(d8), ga, k);
      assert UnpackLo(s8)[if k < 4 then 3 else 7] == alpha;
    } else {
      BlendHalfIsScalar(UnpackHi(s8), UnpackHi(d8), ga, k - 8);
      assert UnpackHi(s8)[if k - 8 < 4 then 3 else 7] == alpha;
    }
  }

  lemma BlockBytes(s: seq<Pixel>, d: seq<Pixel>, ga: Byte, i: int, c: int)
    requires |s| == |d| == 4 && 0 <= i < 4 && 0 <= c < 3
    ensures Packed(Load(s), Load(d), ga)[4 * i + c] == Channel(ByteOf(s[i], c), ByteOf(d[i], c), Mul8(s[i].a, ga))
  {
    hide Mul8;
    hide Channel;
    hide Packed;
    var k := 4 * i + c;
    assert k / 4 == i && k % 4 == c && (4 * i + 3) / 4 == i && (4 * i + 3) % 4 == 3;
    PackedChannel(Load(s), Load(d), ga, k, s[i].a);
  }

  /** A vector block gives the scalar pixel with its ignored byte forced to 255. */
  lemma BlendBlockIsScalar(s: seq<Pixel>, d: seq<Pixel>, ga: Byte, i: int)
    requires |s| == |d| == 4 && 0 <= i < 4
    ensures BlendBlock(s, d, ga)[i] == AlphaPixel(d[i], s[i], ga).(a := 255)
  {
    hide Channel;
    hide Mul8;
    hide Packed;
    hide BlendPixel;
    hide Load;
    BlockBytes(s, d, ga, i, 0);
    BlockBytes(s, d, ga, i, 1);
    BlockBytes(s, d, ga, i, 2);
    assert AlphaPixel(d[i], s[i], ga).Color() == Over(s[i].Color(), Mul8(s[i].a, ga), d[i].Color());
  }

  // ---------------------------------------------------------------- rows

  /** What position `k` of an alpha row holds afterwards; `vector` when a full block covered it. */
  function AlphaWord(d: Pixel, s: Pixel, ga: Byte, vector: bool): (o: Pixel)
    ensures o.Color() == Over(s.Color(), Mul8(s.a, ga), d.Color())
    ensures d.a == 255 ==> o == AlphaPixel(d, s, ga)
  {
    if ga == 0 then d
    else if vector then AlphaPixel(d, s, ga).(a := 255)
    else AlphaPixel(d, s, ga)
  }

  /** A vector block stores the scalar word exactly when the old ignored byte was 255, the texel is not
      fully transparent, or the row is skipped. */
  lemma VectorWordIsScalarIff(d: Pixel, s: Pixel, ga: Byte)
    ensures AlphaWord(d, s, ga, true) == AlphaPixel(d, s, ga) <==> d.a == 255 || Mul8(s.a, ga) != 0 || ga == 0
  {
    if ga == 0 {
      assert Mul8(s.a, 0) == 0;
    }
    hide Mul8;
  }

  /** Any transparent texel over any pixel whose ignored byte is 0, such as a zeroed one: the scalar loop
      leaves 0 there, the vector block stores 255. */
  lemma TransparentTexelDiffers(d: Pixel, s: Pixel)
    requires d.a == 0 && s.a == 0
    ensures AlphaPixel(d, s, 255).a == 0 && AlphaWord(d, s, 255, true).a == 255
  {
    Mul8Ends(s.a);
    hide Mul8, BlendPixel, Over;
    assert AlphaPixel(d, s, 255) == BlendPixel(d, s, 0);
  }

  lemma NoAlphaNoChange()
    ensures forall d, s, vector :: AlphaWord(d, s, 0, vector) == d
  {
  }

  lemma ScalarWord(d: Pixel, s: Pixel, ga: Byte)
    ensures AlphaWord(d, s, ga, false) == AlphaPixel(d, s, ga)
  {
    if ga == 0 {
      assert Mul8(s.a, 0) == 0;
    }
  }

  method CopyRowSse2(dst: array<Pixel>, d0: nat, src: seq<Pixel>, s0: nat, n: nat)
    requires d0 + n <= dst.Length && s0 + n <= |src|
    modifies dst
    ensures forall k :: 0 <= k < dst.Length ==>
              dst[k] == if d0 <= k < d0 + n then CopyPixel(src[s0 + k - d0]) else old(dst[k])
  {
    var x := 0;
    while x + 4 <= n
      invariant 0 <= x <= n
      invariant forall k :: 0 <= k < dst.Length ==>
                  dst[k] == if d0 <= k < d0 + x then CopyPixel(src[s0 + k - d0]) else old(dst[k])
    {
      forall j | 0 <= j < 4 {
        dst[d0 + x + j] := CopyPixel(src[s0 + x + j]);
      }
      x := x + 4;
    }
    while x < n
      invariant 0 <= x <= n
      invariant forall k :: 0 <= k < dst.Length ==>
                  dst[k] == if d0 <= k < d0 + x then CopyPixel(src[s0 + k - d0]) else old(dst[k])
    {
      dst[d0 + x] := CopyPixel(src[s0 + x]);
      x := x + 1;
    }
  }

  method CopyRowAvx2(dst: array<Pixel>, d0: nat, src: seq<Pixel>, s0: nat, n: nat)
    requires d0 + n <= dst.Length && s0 + n <= |src|
    modifies dst
    ensures forall k :: 0 <= k < dst.Length ==>
              dst[k] == if d0 <= k < d0 + n then CopyPixel(src[s0 + k - d0]) else old(dst[k])
  {
    var x := 0;
    while x + 8 <= n
      invariant 0 <= x <= n
      invariant forall k :: 0 <= k < dst.Length ==>
                  dst[k] == if d0 <= k < d0 + x then CopyPixel(src[s0 + k - d0]) else old(dst[k])
    {
      forall j | 0 <= j < 8 {
        dst[d0 + x + j] := CopyPixel(src[s0 + x + j]);
      }
      x := x + 8;
    }
    if x < n {
      CopyRowSse2(dst, d0 + x, src, s0 + x, n - x);
    }
  }

  /** One vector block in place. */
  method StoreBlock(dst: array<Pixel>, d0: nat, src: seq<Pixel>, s0: nat, ga: Byte)
    requires d0 + 4 <= dst.Length && s0 + 4 <= |src| && ga != 0
    modifies dst
    ensures forall k :: 0 <= k < dst.Length ==>
              dst[k] == if d0 <= k < d0 + 4 then AlphaWord(old(dst[k]), src[s0 + k - d0], ga, true) else old(dst[k])
  {
    var s, d := src[s0..s0 + 4], dst[d0..d0 + 4];
    var block := BlendBlock(s, d, ga);
    forall j | 0 <= j < 4 ensures block[j] == AlphaWord(old(dst[d0 + j]), src[s0 + j], ga, true) {
      BlendBlockIsScalar(s, d, ga, j);
    }
    forall j | 0 <= j < 4 {
      dst[d0 + j] := block[j];
    }
  }

  /** The SSE2 row: blocks of four, scalar tail. */
  method AlphaRowSse2(dst: array<Pixel>, d0: nat, src: seq<Pixel>, s0: nat, ga: Byte, n: nat)
    requires d0 + n <= dst.Length && s0 + n <= |src|
    modifies dst
    ensures forall k :: 0 <= k < dst.Length ==>
              dst[k] == if d0 <= k < d0 + n then AlphaWord(old(dst[k]), src[s0 + k - d0], ga, k - d0 < n - n % 4)
                        else old(dst[k])
  {
    hide *;
    if ga == 0 {
      NoAlphaNoChange();
      return;
    }
    var x := 0;
    while x + 4 <= n
      invariant 0 <= x <= n && x % 4 == 0
      invariant forall k :: 0 <= k < dst.Length ==>
                  dst[k] == if d0 <= k < d0 + x then AlphaWord(old(dst[k]), src[s0 + k - d0], ga, true) else old(dst[k])
    {
      StoreBlock(dst, d0 + x, src, s0 + x, ga);
      x := x + 4;
    }
    assert x == n - n % 4;
    while x < n
      invariant n - n % 4 <= x <= n
      invariant forall k :: 0 <= k < dst.Length ==>
                  dst[k] == if d0 <= k < d0 + x then AlphaWord(old(dst[k]), src[s0 + k - d0], ga, k - d0 < n - n % 4)
                            else old(dst[k])
    {
      ScalarWord(dst[d0 + x], src[s0 + x], ga);
      dst[d0 + x] := AlphaPixel(dst[d0 + x], src[s0 + x], ga);
      x := x + 1;
    }
  }

  /** The AVX2 row: the two 128-bit halves of a register run the SSE2 recipe side by side; the tail
      is handed to the SSE2 row. */
  method AlphaRowAvx2(dst: array<Pixel>, d0: nat, src: seq<Pixel>, s0: nat, ga: Byte, n: nat)
    requires d0 + n <= dst.Length && s0 + n <= |src|
    modifies dst
    ensures forall k :: 0 <= k < dst.Length ==>
              dst[k] == if d0 <= k < d0 + n then AlphaWord(old(dst[k]), src[s0 + k - d0], ga, k - d0 < n - n % 4)
                        else old(dst[k])
  {
    hide *;
    if ga == 0 {
      NoAlphaNoChange();
      return;
    }
    var x := 0;
    while x + 8 <= n
      invariant 0 <= x <= n && x % 8 == 0
      invariant forall k :: 0 <= k < dst.Length ==>
                  dst[k] == if d0 <= k < d0 + x then AlphaWord(old(dst[k]), src[s0 + k - d0], ga, true) else old(dst[k])
    {
      StoreBlock(dst, d0 + x, src, s0 + x, ga);
      StoreBlock(dst, d0 + x + 4, src, s0 + x + 4, ga);
      x := x + 8;
    }
    assert (n - x) % 4 == n % 4;
    if x < n {
      AlphaRowSse2(dst, d0 + x, src, s0 + x, ga, n - x);
    }
  }
}
