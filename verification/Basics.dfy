/** The missing value. */
module Options {

  datatype Option<+T> = None | Some(value: T)
}

/** Quotients, remainders and products, one fact at a time. */
module Division {

  lemma FactorOrder(a: int, b: int, r: nat)
    requires a * r < b * r
    ensures a < b
  {
  }

  lemma DivisionBounds(n: nat, r: nat)
    requires r > 0
    ensures (n / r) * r <= n < (n / r + 1) * r
  {
    assert n == (n / r) * r + n % r;
    assert (n / r + 1) * r == (n / r) * r + r;
  }

  lemma QuotientIsUnique(d: nat, m: nat, q: nat, x: nat, stride: nat)
    requires m < stride && x < stride && d * stride + m == q * stride + x
    ensures d == q && m == x
  {
    assert (d + 1) * stride == d * stride + stride && (q + 1) * stride == q * stride + stride;
    FactorOrder(d, q + 1, stride);
    FactorOrder(q, d + 1, stride);
  }

  lemma DivModBack(k: nat, stride: nat)
    requires stride > 0
    ensures k == (k / stride) * stride + k % stride
  {
  }

  lemma DivMod(q: nat, x: nat, stride: nat)
    requires x < stride
    ensures (q * stride + x) / stride == q && (q * stride + x) % stride == x
  {
    var k := q * stride + x;
    DivModBack(k, stride);
    QuotientIsUnique(k / stride, k % stride, q, x, stride);
  }

  function Pow2(m: nat): (p: nat)
    ensures p > 0
  {
    if m == 0 then 1 else 2 * Pow2(m - 1)
  }
}
