/** Facts about quotients and remainders that the raster and tile arithmetic rests on. */
module Arith {

  lemma DivModOf(q: int, r: int, w: int)
    requires 0 <= r < w
    ensures (q * w + r) / w == q && (q * w + r) % w == r
  {
    var n := q * w + r;
    var d := q - n / w;
    assert n == (n / w) * w + n % w;
    assert d * w == n % w - r && (-d) * w == r - n % w;
    if d >= 1 {
      MulAtLeast(d, w);
    } else if d <= -1 {
      MulAtLeast(-d, w);
    }
  }

  lemma MulAtLeast(m: int, w: int)
    requires m >= 1 && w >= 0
    ensures m * w >= w
  {
    assert m * w == (m - 1) * w + w;
    MulNonNegative(m - 1, w);
  }

  lemma MulNonNegative(a: int, b: int)
    requires a >= 0 && b >= 0
    ensures a * b >= 0
  {
  }

  /** A position inside a `w` by `h` raster has an index below `w * h`. */
  lemma IndexBelow(q: int, r: int, w: int, h: int)
    requires 0 <= q < h && 0 <= r < w
    ensures 0 <= q * w + r < w * h
  {
    MulNonNegative(q, w);
    MulAtLeast(h - q, w);
    assert w * h == (h - q) * w + q * w;
  }

  /** Conversely, an index below `w * h` has its row below `h`. */
  lemma RowBelow(n: int, w: int, h: int)
    requires w > 0 && 0 <= n < w * h
    ensures 0 <= n / w < h && 0 <= n % w < w && n == (n / w) * w + n % w
  {
    var q := n / w;
    assert n == q * w + n % w;
    assert q * w == (q - h) * w + h * w && q * w == -((-q) * w);
    if q >= h {
      MulNonNegative(q - h, w);
    } else if q <= -1 {
      MulAtLeast(-q, w);
    }
  }

  /** Raster indices are ordered by row and then by column. */
  lemma RasterOrder(q1: int, r1: int, q2: int, r2: int, w: int)
    requires 0 <= r1 < w && 0 <= r2 < w
    ensures q1 * w + r1 < q2 * w + r2 <==> q1 < q2 || (q1 == q2 && r1 < r2)
  {
    if q1 < q2 {
      MulAtLeast(q2 - q1, w);
      assert q2 * w == (q2 - q1) * w + q1 * w;
    } else if q2 < q1 {
      MulAtLeast(q1 - q2, w);
      assert q1 * w == (q1 - q2) * w + q2 * w;
    }
  }

  /** n strides of length w: the product, defined by addition so that loops can count it linearly. */
  function Strides(n: nat, w: nat): nat {
    if n == 0 then 0 else Strides(n - 1, w) + w
  }

  lemma {:induction false} StridesIsProduct(n: nat, w: nat)
    ensures Strides(n, w) == n * w
  {
    if n > 0 {
      StridesIsProduct(n - 1, w);
      assert n * w == (n - 1) * w + w;
    }
  }

  /** The n-th of h strides ends within all of them. */
  lemma StrideInside(n: nat, w: nat, h: nat)
    requires n < h
    ensures Strides(n, w) + w <= w * h
  {
    StridesIsProduct(n, w);
    MulNonNegative(h - n - 1, w);
    assert w * h == n * w + w + (h - n - 1) * w;
  }

  function Pow2(n: nat): (p: nat)
    ensures p >= 1
  {
    if n == 0 then 1 else 2 * Pow2(n - 1)
  }

  lemma RemainderBelow(n: nat, w: nat)
    requires w > 0
    ensures 0 <= n % w <= n
  {
    if n < w {
      DivModOf(0, n, w);
    }
  }

  /** Dividing twice is dividing by the product. */
  lemma DivTwice(n: nat, a: nat, b: nat)
    requires a > 0 && b > 0
    ensures a * b > 0 && n / (a * b) == n / a / b
  {
    Parts(n, a);
    Parts(n / a, b);
    DivTwiceOf(n, n / a, n % a, n / a / b, n / a % b, a, b);
  }

  lemma Parts(n: nat, w: nat)
    requires w > 0
    ensures n == (n / w) * w + n % w && n / w >= 0 && n % w < w
  {
  }

  lemma DivTwiceOf(n: nat, m: nat, s: nat, q: nat, r: nat, a: nat, b: nat)
    requires n == m * a + s && m == q * b + r && s < a && r < b
    ensures a * b > 0 && n / (a * b) == q
  {
    NestedParts(q, r, s, a, b);
  }

  lemma NestedParts(q: nat, r: nat, s: nat, a: nat, b: nat)
    requires r < b && s < a
    ensures a * b > 0 && ((q * b + r) * a + s) / (a * b) == q
  {
    IndexBelow(r, s, a, b);
    ProductsRegroup(q, b, r, a);
    DivModOf(q, r * a + s, a * b);
  }

  lemma ProductsRegroup(q: nat, b: nat, r: nat, a: nat)
    ensures (q * b + r) * a == q * (a * b) + r * a
  {
  }
}
