// Shared value types of the shape matcher.

module Common {

  /** An optional result: `None` is the source's `null` ("no usable shape"). */
  datatype Option<T> = None | Some(value: T)

  /** A JavaScript number as far as this model needs one: a real value or NaN. */
  datatype Number = NaN | Num(value: real)

  /** The rectangle `[rmin..rmax] x [cmin..cmax]` of an image, bounds inclusive. */
  datatype Box = Box(rmin: int, rmax: int, cmin: int, cmax: int)

  /** JavaScript's `Math.round`: the nearest integer, halves rounded up. */
  function Round(x: real): (n: int)
    ensures n as real - 0.5 <= x < n as real + 0.5
  {
    (x + 0.5).Floor
  }

  function Min(a: int, b: int): int { if a < b then a else b }

  function Max(a: int, b: int): int { if a < b then b else a }

  /**
   * Raster index of pixel (y, x) in a row-major image `w` pixels wide and `h`
   * high. The division facts make the index injective for free.
   */
  function Idx(w: nat, h: nat, y: int, x: int): (i: nat)
    requires 0 <= y < h && 0 <= x < w
    ensures i < w * h && i / w == y && i % w == x
  {
    RasterIndex(w, h, y, x);
    y * w + x
  }

  lemma RasterIndex(w: nat, h: nat, y: int, x: int)
    requires 0 <= y < h && 0 <= x < w
    ensures y * w + x < w * h && (y * w + x) / w == y && (y * w + x) % w == x
  {
    assert y * w <= (h - 1) * w by {
      assert (h - 1) * w - y * w == (h - 1 - y) * w;
    }
    assert (h - 1) * w + w == h * w;
    DivModUnique(y * w + x, w, y, x);
  }

  /** Euclidean division is determined by any quotient/remainder pair. */
  lemma DivModUnique(a: int, w: int, q: int, r: int)
    requires w > 0 && 0 <= r < w && a == q * w + r
    ensures a / w == q && a % w == r
  {
    var q', r' := a / w, a % w;
    assert a == q' * w + r';
    assert (q - q') * w == r' - r;
    if q > q' {
      MulAtLeast(q - q', w);
      assert false;
    } else if q < q' {
      MulAtLeast(q' - q, w);
      assert false;
    }
  }

  lemma MulAtLeast(d: int, w: int)
    requires d >= 1 && w >= 0
    ensures d * w >= w
  {
    assert d * w == (d - 1) * w + w;
  }

  /** One more row of width `w` adds `w` to the area. */
  lemma MulSucc(a: int, a1: int, w: int)
    requires a1 == a + 1
    ensures a1 * w == a * w + w
  {
  }

  lemma MulMonotone(a: int, b: int, w: int)
    requires 0 <= a <= b && w >= 0
    ensures a * w <= b * w
  {
    assert b * w == a * w + (b - a) * w;
  }

  /** Scaling both sides of a comparison by a positive factor keeps it. */
  lemma ScaleKeepsOrder(a: real, b: real, c: real)
    requires c > 0.0
    ensures a <= b <==> a * c <= b * c
    ensures a < b <==> a * c < b * c
  {
    assert b * c - a * c == (b - a) * c;
  }

  /** A ratio `a / m` compared with a constant `c` is `a` compared with `c * m`. */
  lemma RatioCompare(a: real, m: real, c: real)
    requires m > 0.0
    ensures a / m >= c <==> a >= c * m
    ensures a / m <= c <==> a <= c * m
  {
    assert a / m * m == a;
    ScaleKeepsOrder(c, a / m, m);
    ScaleKeepsOrder(a / m, c, m);
  }

  /** Every raster index is the index of the pixel at (i / w, i % w). */
  lemma RasterCoordinates(w: nat, h: nat, i: int)
    requires 0 <= i < w * h
    ensures w > 0 && 0 <= i / w < h && 0 <= i % w < w
    ensures Idx(w, h, i / w, i % w) == i
  {
    assert w > 0;
    if i / w >= h {
      MulMonotone(h, i / w, w);
      assert false;
    }
  }
}
