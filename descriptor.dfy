// The shape descriptor of `extractLargestCluster` (src/App.js:101-116): block
// means of the 32 x 32 grid `norm`, its column and row profiles, ink density,
// aspect ratio, quadrant means, the ink centroid and the hexadecimal hash of
// the thresholded grid.
//
// Real-valued bounds and scalings write `S - 1` and `S` as the numerals `31.0`
// and `32.0`, so that multiplying by them stays linear for the solver.

module Descriptor {
  import opened Common
  import opened Cluster
  import opened Hex

  /** Cells per side of the coarse grid. */
  const G := 8

  /** Side of one coarse cell in grid cells (`S / G`). */
  const B := 4

  /** What a sum adds up at cell (y, x): the value, or the value times its column or its row. */
  datatype Weight = Plain | ByColumn | ByRow

  /** `norm[y * S + x]`. */
  function At(norm: seq<real>, y: int, x: int): real
    requires |norm| == S * S && 0 <= y < S && 0 <= x < S
  {
    norm[y * S + x]
  }

  function Term(norm: seq<real>, k: Weight, y: int, x: int): real
    requires |norm| == S * S && 0 <= y < S && 0 <= x < S
  {
    var v := At(norm, y, x);
    match k
    case Plain => v
    case ByColumn => x as real * v
    case ByRow => y as real * v
  }

  /** Terms of row `y` over columns `x0 .. n-1`. */
  function RowTotal(norm: seq<real>, k: Weight, y: int, x0: int, n: int): real
    requires |norm| == S * S && 0 <= y < S && 0 <= x0 <= n <= S
    decreases n - x0
  {
    if n == x0 then 0.0 else RowTotal(norm, k, y, x0, n - 1) + Term(norm, k, y, n - 1)
  }

  /** Terms over rows `y0 .. m-1` and columns `x0 .. x1-1`, row by row. */
  function BlockTotal(norm: seq<real>, k: Weight, y0: int, m: int, x0: int, x1: int): real
    requires |norm| == S * S && 0 <= y0 <= m <= S && 0 <= x0 <= x1 <= S
    decreases m - y0
  {
    if m == y0 then 0.0 else BlockTotal(norm, k, y0, m - 1, x0, x1) + RowTotal(norm, k, m - 1, x0, x1)
  }

  /** `s / c` after summing `norm` over rows `[y0, y1)` and columns `[x0, x1)`. */
  function BlockMean(norm: seq<real>, y0: int, y1: int, x0: int, x1: int): real
    requires |norm| == S * S && 0 <= y0 < y1 <= S && 0 <= x0 < x1 <= S
  {
    MulAtLeast(y1 - y0, x1 - x0);
    BlockTotal(norm, Plain, y0, y1, x0, x1) / ((y1 - y0) * (x1 - x0)) as real
  }

  // ---------------------------------------------------------------------------
  // Bounds of sums over a grid in [0, 1]

  /** A value scaled by a weight in `[0, 31]` lies between 0 and 31 times the value. */
  lemma ScaleBound(c: real, v: real)
    requires 0.0 <= c <= 31.0 && v >= 0.0
    ensures 0.0 <= c * v <= 31.0 * v
  {
    assert 31.0 * v - c * v == (31.0 - c) * v;
  }

  lemma {:induction false} RowPlainBounds(norm: seq<real>, y: int, x0: int, n: int)
    requires |norm| == S * S && 0 <= y < S && 0 <= x0 <= n <= S && InUnit(norm)
    ensures 0.0 <= RowTotal(norm, Plain, y, x0, n) <= (n - x0) as real
    decreases n - x0
  {
    if n > x0 {
      RowPlainBounds(norm, y, x0, n - 1);
      assert 0.0 <= At(norm, y, n - 1) <= 1.0;
    }
  }

  /** Two bounds by 31 times a value add up: `b == b0 + r` and `p == p0 + q`. */
  lemma AddBounds(b0: real, p0: real, r: real, q: real, b: real, p: real)
    requires 0.0 <= b0 <= 31.0 * p0 && 0.0 <= r <= 31.0 * q && b == b0 + r && p == p0 + q
    ensures 0.0 <= b <= 31.0 * p
  {
  }

  /** A total that is `c` times a non-negative value, for `c` in `[0, 31]`, lies between 0 and 31 times the value. */
  lemma ScaledBound(t: real, c: real, v: real)
    requires t == c * v && 0.0 <= c <= 31.0 && v >= 0.0
    ensures 0.0 <= t <= 31.0 * v
  {
    ScaleBound(c, v);
  }

  lemma {:induction false} RowColumnBounds(norm: seq<real>, y: int, x0: int, n: int)
    requires |norm| == S * S && 0 <= y < S && 0 <= x0 <= n <= S && InUnit(norm)
    ensures 0.0 <= RowTotal(norm, ByColumn, y, x0, n) <= 31.0 * RowTotal(norm, Plain, y, x0, n)
    decreases n - x0
  {
    if n > x0 {
      RowColumnBounds(norm, y, x0, n - 1);
      var v := At(norm, y, n - 1);
      ScaledBound(Term(norm, ByColumn, y, n - 1), (n - 1) as real, v);
      AddBounds(RowTotal(norm, ByColumn, y, x0, n - 1), RowTotal(norm, Plain, y, x0, n - 1),
        Term(norm, ByColumn, y, n - 1), v, RowTotal(norm, ByColumn, y, x0, n), RowTotal(norm, Plain, y, x0, n));
    }
  }

  lemma {:induction false} RowByRow(norm: seq<real>, y: int, x0: int, n: int)
    requires |norm| == S * S && 0 <= y < S && 0 <= x0 <= n <= S
    ensures RowTotal(norm, ByRow, y, x0, n) == y as real * RowTotal(norm, Plain, y, x0, n)
    decreases n - x0
  {
    if n > x0 {
      RowByRow(norm, y, x0, n - 1);
    }
  }

  lemma RowByRowBounds(norm: seq<real>, y: int, x0: int, n: int)
    requires |norm| == S * S && 0 <= y < S && 0 <= x0 <= n <= S && InUnit(norm)
    ensures 0.0 <= RowTotal(norm, ByRow, y, x0, n) <= 31.0 * RowTotal(norm, Plain, y, x0, n)
  {
    RowByRow(norm, y, x0, n);
    RowPlainBounds(norm, y, x0, n);
    ScaledBound(RowTotal(norm, ByRow, y, x0, n), y as real, RowTotal(norm, Plain, y, x0, n));
  }

  lemma {:induction false} RowZero(norm: seq<real>, y: int, x0: int, n: int)
    requires |norm| == S * S && 0 <= y < S && 0 <= x0 <= n <= S && InUnit(norm)
    ensures RowTotal(norm, Plain, y, x0, n) == 0.0 <==> forall x :: x0 <= x < n ==> At(norm, y, x) == 0.0
    decreases n - x0
  {
    if n > x0 {
      RowZero(norm, y, x0, n - 1);
      RowPlainBounds(norm, y, x0, n - 1);
      assert 0.0 <= At(norm, y, n - 1);
    }
  }

  lemma {:induction false} BlockPlainBounds(norm: seq<real>, y0: int, m: int, x0: int, x1: int)
    requires |norm| == S * S && 0 <= y0 <= m <= S && 0 <= x0 <= x1 <= S && InUnit(norm)
    ensures 0.0 <= BlockTotal(norm, Plain, y0, m, x0, x1) <= ((m - y0) * (x1 - x0)) as real
    decreases m - y0
  {
    if m > y0 {
      BlockPlainBounds(norm, y0, m - 1, x0, x1);
      RowPlainBounds(norm, m - 1, x0, x1);
      MulSucc(m - 1 - y0, m - y0, x1 - x0);
    }
  }

  /** The column-weighted sum of a grid in `[0, 1]` is at most 31 times its plain sum. */
  lemma {:induction false} BlockColumnBounds(norm: seq<real>, y0: int, m: int, x0: int, x1: int)
    requires |norm| == S * S && 0 <= y0 <= m <= S && 0 <= x0 <= x1 <= S && InUnit(norm)
    ensures 0.0 <= BlockTotal(norm, ByColumn, y0, m, x0, x1) <= 31.0 * BlockTotal(norm, Plain, y0, m, x0, x1)
    decreases m - y0
  {
    if m > y0 {
      BlockColumnBounds(norm, y0, m - 1, x0, x1);
      RowColumnBounds(norm, m - 1, x0, x1);
      AddBounds(BlockTotal(norm, ByColumn, y0, m - 1, x0, x1), BlockTotal(norm, Plain, y0, m - 1, x0, x1),
        RowTotal(norm, ByColumn, m - 1, x0, x1), RowTotal(norm, Plain, m - 1, x0, x1),
        BlockTotal(norm, ByColumn, y0, m, x0, x1), BlockTotal(norm, Plain, y0, m, x0, x1));
    }
  }

  /** The row-weighted sum of a grid in `[0, 1]` is at most 31 times its plain sum. */
  lemma {:induction false} BlockRowBounds(norm: seq<real>, y0: int, m: int, x0: int, x1: int)
    requires |norm| == S * S && 0 <= y0 <= m <= S && 0 <= x0 <= x1 <= S && InUnit(norm)
    ensures 0.0 <= BlockTotal(norm, ByRow, y0, m, x0, x1) <= 31.0 * BlockTotal(norm, Plain, y0, m, x0, x1)
    decreases m - y0
  {
    if m > y0 {
      BlockRowBounds(norm, y0, m - 1, x0, x1);
      RowByRowBounds(norm, m - 1, x0, x1);
      AddBounds(BlockTotal(norm, ByRow, y0, m - 1, x0, x1), BlockTotal(norm, Plain, y0, m - 1, x0, x1),
        RowTotal(norm, ByRow, m - 1, x0, x1), RowTotal(norm, Plain, m - 1, x0, x1),
        BlockTotal(norm, ByRow, y0, m, x0, x1), BlockTotal(norm, Plain, y0, m, x0, x1));
    }
  }

  lemma {:induction false} BlockZero(norm: seq<real>, y0: int, m: int, x0: int, x1: int)
    requires |norm| == S * S && 0 <= y0 <= m <= S && 0 <= x0 <= x1 <= S && InUnit(norm)
    ensures BlockTotal(norm, Plain, y0, m, x0, x1) == 0.0 <==>
      forall y, x :: y0 <= y < m && x0 <= x < x1 ==> At(norm, y, x) == 0.0
    decreases m - y0
  {
    if m > y0 {
      BlockZero(norm, y0, m - 1, x0, x1);
      BlockPlainBounds(norm, y0, m - 1, x0, x1);
      RowPlainBounds(norm, m - 1, x0, x1);
      RowZero(norm, m - 1, x0, x1);
    }
  }

  /** A block mean of a grid in `[0, 1]` lies in `[0, 1]`. */
  lemma BlockMeanInUnit(norm: seq<real>, y0: int, y1: int, x0: int, x1: int)
    requires |norm| == S * S && 0 <= y0 < y1 <= S && 0 <= x0 < x1 <= S && InUnit(norm)
    ensures 0.0 <= BlockMean(norm, y0, y1, x0, x1) <= 1.0
  {
    BlockPlainBounds(norm, y0, y1, x0, x1);
    MulAtLeast(y1 - y0, x1 - x0);
    var area := ((y1 - y0) * (x1 - x0)) as real;
    RatioCompare(BlockTotal(norm, Plain, y0, y1, x0, x1), area, 0.0);
    RatioCompare(BlockTotal(norm, Plain, y0, y1, x0, x1), area, 1.0);
  }

  // ---------------------------------------------------------------------------
  // Block means

  /** The inner loop of a block: `s += norm[y * S + x]; c++` over one row. */
  method BlockRow(norm: array<real>, y: int, x0: int, x1: int, s0: real) returns (s: real)
    requires norm.Length == S * S && 0 <= y < S && 0 <= x0 <= x1 <= S
    ensures s == s0 + RowTotal(norm[..], Plain, y, x0, x1)
  {
    s := s0;
    for x := x0 to x1
      invariant s == s0 + RowTotal(norm[..], Plain, y, x0, x)
    {
      s := s + norm[y * S + x];
    }
  }

  /** `let s = 0, c = 0; for (y …) for (x …) { s += norm[y * S + x]; c++; }` and then `s / c`. */
  method BlockMeanOf(norm: array<real>, y0: int, y1: int, x0: int, x1: int) returns (mean: real)
    requires norm.Length == S * S && 0 <= y0 < y1 <= S && 0 <= x0 < x1 <= S
    ensures mean == BlockMean(norm[..], y0, y1, x0, x1)
  {
    var s, c := 0.0, 0;
    for y := y0 to y1
      invariant s == BlockTotal(norm[..], Plain, y0, y, x0, x1)
      invariant c == (y - y0) * (x1 - x0)
    {
      s := BlockRow(norm, y, x0, x1, s);
      c := c + (x1 - x0);
      assert (y + 1 - y0) * (x1 - x0) == (y - y0) * (x1 - x0) + (x1 - x0);
    }
    MulAtLeast(y1 - y0, x1 - x0);
    mean := s / c as real;
  }

  /** `grid[gy][gx]`: the mean of the 4 x 4 block at coarse cell (gy, gx). */
  function GridMeans(norm: seq<real>): (grid: seq<seq<real>>)
    requires |norm| == S * S
    ensures |grid| == G && forall gy :: 0 <= gy < G ==> |grid[gy]| == G
  {
    seq(G, gy requires 0 <= gy < G =>
      seq(G, gx requires 0 <= gx < G => BlockMean(norm, gy * B, gy * B + B, gx * B, gx * B + B)))
  }

  /** `vProfile[gx]`: the mean of column band `gx` over all rows. */
  function VProfile(norm: seq<real>): (v: seq<real>)
    requires |norm| == S * S
    ensures |v| == G
  {
    seq(G, gx requires 0 <= gx < G => BlockMean(norm, 0, S, gx * B, gx * B + B))
  }

  /** `hProfile[gy]`: the mean of row band `gy` over all columns. */
  function HProfile(norm: seq<real>): (v: seq<real>)
    requires |norm| == S * S
    ensures |v| == G
  {
    seq(G, gy requires 0 <= gy < G => BlockMean(norm, gy * B, gy * B + B, 0, S))
  }

  /**
   * `quadrants[qi]` with `qi = (y < 16 ? 0 : 2) + (x < 16 ? 0 : 1)`: the means
   * of the top-left, top-right, bottom-left and bottom-right quarters.
   */
  function Quadrants(norm: seq<real>): (q: seq<real>)
    requires |norm| == S * S
    ensures |q| == 4
  {
    var h := S / 2;
    [BlockMean(norm, 0, h, 0, h), BlockMean(norm, 0, h, h, S), BlockMean(norm, h, S, 0, h), BlockMean(norm, h, S, h, S)]
  }

  /** The coarse grid loop: rows of block means pushed one by one. */
  method ComputeGrid(norm: array<real>) returns (grid: seq<seq<real>>)
    requires norm.Length == S * S
    ensures grid == GridMeans(norm[..])
  {
    grid := [];
    for gy := 0 to G
      invariant grid == GridMeans(norm[..])[..gy]
    {
      var row := [];
      for gx := 0 to G
        invariant row == GridMeans(norm[..])[gy][..gx]
      {
        var m := BlockMeanOf(norm, gy * B, gy * B + B, gx * B, gx * B + B);
        row := row + [m];
      }
      assert row == GridMeans(norm[..])[gy];
      grid := grid + [row];
    }
  }

  /** The two profile loops. */
  method ComputeProfiles(norm: array<real>) returns (vProfile: seq<real>, hProfile: seq<real>)
    requires norm.Length == S * S
    ensures vProfile == VProfile(norm[..]) && hProfile == HProfile(norm[..])
  {
    vProfile, hProfile := [], [];
    for gx := 0 to G
      invariant vProfile == VProfile(norm[..])[..gx]
    {
      var m := BlockMeanOf(norm, 0, S, gx * B, gx * B + B);
      vProfile := vProfile + [m];
    }
    for gy := 0 to G
      invariant hProfile == HProfile(norm[..])[..gy]
    {
      var m := BlockMeanOf(norm, gy * B, gy * B + B, 0, S);
      hProfile := hProfile + [m];
    }
  }

  /** The quadrant means. */
  method ComputeQuadrants(norm: array<real>) returns (quadrants: seq<real>)
    requires norm.Length == S * S
    ensures quadrants == Quadrants(norm[..])
  {
    var h := S / 2;
    var q0 := BlockMeanOf(norm, 0, h, 0, h);
    var q1 := BlockMeanOf(norm, 0, h, h, S);
    var q2 := BlockMeanOf(norm, h, S, 0, h);
    var q3 := BlockMeanOf(norm, h, S, h, S);
    quadrants := [q0, q1, q2, q3];
  }

  // ---------------------------------------------------------------------------
  // Ink density

  /** Sum of the first `n` entries, in index order. */
  function Prefix(norm: seq<real>, n: nat): real
    requires n <= |norm|
  {
    if n == 0 then 0.0 else Prefix(norm, n - 1) + norm[n - 1]
  }

  /** `inkDensity`: the mean of all grid entries. */
  function InkDensity(norm: seq<real>): real
    requires |norm| > 0
  {
    Prefix(norm, |norm|) / |norm| as real
  }

  lemma {:induction false} PrefixBounds(norm: seq<real>, n: nat)
    requires n <= |norm| && InUnit(norm)
    ensures 0.0 <= Prefix(norm, n) <= n as real
  {
    if n > 0 {
      PrefixBounds(norm, n - 1);
    }
  }

  /** The ink density of a grid in `[0, 1]` lies in `[0, 1]`. */
  lemma InkDensityInUnit(norm: seq<real>)
    requires |norm| > 0 && InUnit(norm)
    ensures 0.0 <= InkDensity(norm) <= 1.0
  {
    PrefixBounds(norm, |norm|);
    RatioCompare(Prefix(norm, |norm|), |norm| as real, 0.0);
    RatioCompare(Prefix(norm, |norm|), |norm| as real, 1.0);
  }

  /** `for (…) inkDensity += norm[i]; inkDensity /= norm.length`. */
  method ComputeInkDensity(norm: array<real>) returns (inkDensity: real)
    requires norm.Length > 0
    ensures inkDensity == InkDensity(norm[..])
  {
    inkDensity := 0.0;
    for i := 0 to norm.Length
      invariant inkDensity == Prefix(norm[..], i)
    {
      inkDensity := inkDensity + norm[i];
    }
    inkDensity := inkDensity / norm.Length as real;
  }

  // ---------------------------------------------------------------------------
  // Centroid

  /** `cT > 0 ? [cxS / cT / S, cyS / cT / S] : [.5, .5]`. */
  function Centroid(norm: seq<real>): (c: seq<real>)
    requires |norm| == S * S
    ensures |c| == 2
  {
    var t := BlockTotal(norm, Plain, 0, S, 0, S);
    if t > 0.0 then [Coordinate(BlockTotal(norm, ByColumn, 0, S, 0, S), t), Coordinate(BlockTotal(norm, ByRow, 0, S, 0, S), t)]
    else [0.5, 0.5]
  }

  /** `cxS / cT / S`: a weighted sum over the plain sum, scaled to the unit square. */
  function Coordinate(weighted: real, t: real): real
    requires t > 0.0
  {
    weighted / t / 32.0
  }

  /** For a grid in `[0, 1]` both centroid coordinates lie in `[0, 31/32]`. */
  lemma CentroidInUnit(norm: seq<real>)
    requires |norm| == S * S && InUnit(norm)
    ensures 0.0 <= Centroid(norm)[0] <= 31.0 / 32.0
    ensures 0.0 <= Centroid(norm)[1] <= 31.0 / 32.0
    ensures AllInUnit(Centroid(norm))
  {
    if BlockTotal(norm, Plain, 0, S, 0, S) > 0.0 {
      BlockColumnBounds(norm, 0, S, 0, S);
      BlockRowBounds(norm, 0, S, 0, S);
      CoordinateBound(BlockTotal(norm, ByColumn, 0, S, 0, S), BlockTotal(norm, Plain, 0, S, 0, S));
      CoordinateBound(BlockTotal(norm, ByRow, 0, S, 0, S), BlockTotal(norm, Plain, 0, S, 0, S));
    }
  }

  /** The centre `[.5, .5]` is used exactly when the grid holds no ink at all. */
  lemma CentreMeansNoInk(norm: seq<real>)
    requires |norm| == S * S && InUnit(norm)
    ensures BlockTotal(norm, Plain, 0, S, 0, S) > 0.0 <==> exists i :: 0 <= i < S * S && norm[i] != 0.0
  {
    BlockZero(norm, 0, S, 0, S);
    BlockPlainBounds(norm, 0, S, 0, S);
    if exists i :: 0 <= i < S * S && norm[i] != 0.0 {
      var i :| 0 <= i < S * S && norm[i] != 0.0;
      CellOfIndex(norm, i);
    }
    if BlockTotal(norm, Plain, 0, S, 0, S) > 0.0 {
      var y, x :| 0 <= y < S && 0 <= x < S && At(norm, y, x) != 0.0;
      RasterIndex(S, S, y, x);
    }
  }

  /** Entry `i` of the grid is the cell at row `i / S`, column `i % S`. */
  lemma CellOfIndex(norm: seq<real>, i: int)
    requires |norm| == S * S && 0 <= i < S * S
    ensures 0 <= i / S < S && 0 <= i % S < S && At(norm, i / S, i % S) == norm[i]
  {
    RasterCoordinates(S, S, i);
  }

  lemma CoordinateBound(weighted: real, t: real)
    requires t > 0.0 && 0.0 <= weighted <= 31.0 * t
    ensures 0.0 <= Coordinate(weighted, t) <= 31.0 / 32.0
  {
    RatioCompare(weighted, t, 0.0);
    RatioCompare(weighted, t, 31.0);
  }

  /** One row of the centroid loop: `cxS += x * v; cyS += y * v; cT += v` along row `y`. */
  method CentroidRow(norm: array<real>, y: int, cx0: real, cy0: real, t0: real) returns (cx: real, cy: real, t: real)
    requires norm.Length == S * S && 0 <= y < S
    requires cx0 == BlockTotal(norm[..], ByColumn, 0, y, 0, S)
    requires cy0 == BlockTotal(norm[..], ByRow, 0, y, 0, S)
    requires t0 == BlockTotal(norm[..], Plain, 0, y, 0, S)
    ensures cx == BlockTotal(norm[..], ByColumn, 0, y + 1, 0, S)
    ensures cy == BlockTotal(norm[..], ByRow, 0, y + 1, 0, S)
    ensures t == BlockTotal(norm[..], Plain, 0, y + 1, 0, S)
  {
    cx, cy, t := cx0, cy0, t0;
    for x := 0 to S
      invariant cx == cx0 + RowTotal(norm[..], ByColumn, y, 0, x)
      invariant cy == cy0 + RowTotal(norm[..], ByRow, y, 0, x)
      invariant t == t0 + RowTotal(norm[..], Plain, y, 0, x)
    {
      cx, cy, t := CentroidStep(norm, y, x, cx, cy, t);
    }
  }

  /** The body of the centroid loop at cell (y, x). */
  method CentroidStep(norm: array<real>, y: int, x: int, cx0: real, cy0: real, t0: real) returns (cx: real, cy: real, t: real)
    requires norm.Length == S * S && 0 <= y < S && 0 <= x < S
    ensures cx == cx0 + Term(norm[..], ByColumn, y, x)
    ensures cy == cy0 + Term(norm[..], ByRow, y, x)
    ensures t == t0 + Term(norm[..], Plain, y, x)
  {
    var v := norm[y * S + x];
    cx := cx0 + x as real * v;
    cy := cy0 + y as real * v;
    t := t0 + v;
  }

  /** The centroid loop. */
  method ComputeCentroid(norm: array<real>) returns (centroid: seq<real>)
    requires norm.Length == S * S
    ensures centroid == Centroid(norm[..])
  {
    var cxS, cyS, cT := 0.0, 0.0, 0.0;
    for y := 0 to S
      invariant cxS == BlockTotal(norm[..], ByColumn, 0, y, 0, S)
      invariant cyS == BlockTotal(norm[..], ByRow, 0, y, 0, S)
      invariant cT == BlockTotal(norm[..], Plain, 0, y, 0, S)
    {
      cxS, cyS, cT := CentroidRow(norm, y, cxS, cyS, cT);
    }
    centroid := if cT > 0.0 then [Coordinate(cxS, cT), Coordinate(cyS, cT)] else [0.5, 0.5];
  }

  // ---------------------------------------------------------------------------
  // Hash

  /** `bits`: '1' where the grid exceeds 0.5, '0' elsewhere, in row-major order. */
  function HashBits(norm: seq<real>): (bits: string)
    ensures |bits| == |norm| && IsBits(bits)
    ensures forall i :: 0 <= i < |norm| ==> (bits[i] == '1' <==> norm[i] > 0.5)
  {
    seq(|norm|, i requires 0 <= i < |norm| => if norm[i] > 0.5 then '1' else '0')
  }

  /** `for (…) bits += norm[i] > .5 ? "1" : "0"`. */
  method ComputeBits(norm: array<real>) returns (bits: string)
    ensures bits == HashBits(norm[..])
  {
    bits := "";
    for i := 0 to norm.Length
      invariant bits == HashBits(norm[..])[..i]
    {
      bits := bits + [if norm[i] > 0.5 then '1' else '0'];
    }
  }

  /** `binaryHash`: 256 lower-case digits, digit `k` holding grid bits `4k .. 4k+3`, most significant first. */
  function BinaryHash(norm: seq<real>): (hash: string)
    requires |norm| == S * S
    ensures |hash| == 256 && IsHex(hash)
    ensures DecodeHex(hash) == HashBits(norm)
  {
    DecodeEncode(HashBits(norm));
    EncodeHex(HashBits(norm))
  }

  /** Digit `k` of the hash reads grid cells `4k .. 4k+3`. */
  lemma BinaryHashDigit(norm: seq<real>, k: int)
    requires |norm| == S * S && 0 <= k < S * S / 4
    ensures BinaryHash(norm)[k] == HexDigit(BitsValue(HashBits(norm)[4 * k..4 * k + 4]))
  {
    EncodeHexDigit(HashBits(norm), k);
  }

  // ---------------------------------------------------------------------------
  // The descriptor

  /** The object `extractLargestCluster` returns. */
  datatype Features = Features(
    grid: seq<seq<real>>, vProfile: seq<real>, hProfile: seq<real>, inkDensity: real,
    aspectRatio: real, quadrants: seq<real>, centroid: seq<real>, binaryHash: string)

  /** The descriptor of grid `norm` taken from a padded box `cw` columns wide and `ch` rows high. */
  function Describe(norm: seq<real>, cw: int, ch: int): Features
    requires |norm| == S * S && ch > 0
  {
    Features(GridMeans(norm), VProfile(norm), HProfile(norm), InkDensity(norm),
      cw as real / ch as real, Quadrants(norm), Centroid(norm), BinaryHash(norm))
  }

  predicate AllInUnit(s: seq<real>)
  {
    forall i :: 0 <= i < |s| ==> 0.0 <= s[i] <= 1.0
  }

  /** The shape every descriptor has: fixed lengths, means in `[0, 1]`, a positive aspect ratio, a 256-digit hash. */
  predicate WellFormed(f: Features)
  {
    |f.grid| == G && (forall gy :: 0 <= gy < G ==> |f.grid[gy]| == G && AllInUnit(f.grid[gy])) &&
    |f.vProfile| == G && AllInUnit(f.vProfile) && |f.hProfile| == G && AllInUnit(f.hProfile) &&
    0.0 <= f.inkDensity <= 1.0 && f.aspectRatio > 0.0 &&
    |f.quadrants| == 4 && AllInUnit(f.quadrants) &&
    |f.centroid| == 2 && AllInUnit(f.centroid) &&
    |f.binaryHash| == 256 && IsHex(f.binaryHash)
  }

  /** Every coarse cell mean of a grid in `[0, 1]` lies in `[0, 1]`. */
  lemma GridInUnit(norm: seq<real>)
    requires |norm| == S * S && InUnit(norm)
    ensures forall gy :: 0 <= gy < G ==> AllInUnit(GridMeans(norm)[gy])
  {
    forall gy, gx | 0 <= gy < G && 0 <= gx < G
      ensures 0.0 <= GridMeans(norm)[gy][gx] <= 1.0
    {
      BlockMeanInUnit(norm, gy * B, gy * B + B, gx * B, gx * B + B);
    }
  }

  /** Every column band mean of a grid in `[0, 1]` lies in `[0, 1]`. */
  lemma VProfileInUnit(norm: seq<real>)
    requires |norm| == S * S && InUnit(norm)
    ensures AllInUnit(VProfile(norm))
  {
    forall g | 0 <= g < G
      ensures 0.0 <= VProfile(norm)[g] <= 1.0
    {
      BlockMeanInUnit(norm, 0, S, g * B, g * B + B);
    }
  }

  /** Every row band mean of a grid in `[0, 1]` lies in `[0, 1]`. */
  lemma HProfileInUnit(norm: seq<real>)
    requires |norm| == S * S && InUnit(norm)
    ensures AllInUnit(HProfile(norm))
  {
    forall g | 0 <= g < G
      ensures 0.0 <= HProfile(norm)[g] <= 1.0
    {
      BlockMeanInUnit(norm, g * B, g * B + B, 0, S);
    }
  }

  /** The four quadrant means of a grid in `[0, 1]` lie in `[0, 1]`. */
  lemma QuadrantsInUnit(norm: seq<real>)
    requires |norm| == S * S && InUnit(norm)
    ensures AllInUnit(Quadrants(norm))
  {
    BlockMeanInUnit(norm, 0, S / 2, 0, S / 2);
    BlockMeanInUnit(norm, 0, S / 2, S / 2, S);
    BlockMeanInUnit(norm, S / 2, S, 0, S / 2);
    BlockMeanInUnit(norm, S / 2, S, S / 2, S);
  }

  /** The descriptor of a grid in `[0, 1]` from a non-empty box is well formed. */
  lemma DescribeWellFormed(norm: seq<real>, cw: int, ch: int)
    requires |norm| == S * S && InUnit(norm) && cw > 0 && ch > 0
    ensures WellFormed(Describe(norm, cw, ch))
  {
    GridInUnit(norm);
    VProfileInUnit(norm);
    HProfileInUnit(norm);
    QuadrantsInUnit(norm);
    InkDensityInUnit(norm);
    CentroidInUnit(norm);
    AspectPositive(cw, ch);
  }

  /** `aspectRatio = cw / ch` of a non-empty box is positive. */
  lemma AspectPositive(cw: int, ch: int)
    requires cw > 0 && ch > 0
    ensures cw as real / ch as real > 0.0
  {
    RatioCompare(cw as real, ch as real, 0.0);
  }

  /** The descriptor loops of `extractLargestCluster`, from `norm` and the padded box size. */
  method ComputeFeatures(norm: array<real>, cw: int, ch: int) returns (f: Features)
    requires norm.Length == S * S && ch > 0
    ensures f == Describe(norm[..], cw, ch)
  {
    var grid := ComputeGrid(norm);
    var vProfile, hProfile := ComputeProfiles(norm);
    var inkDensity := ComputeInkDensity(norm);
    var aspectRatio := cw as real / ch as real;
    var quadrants := ComputeQuadrants(norm);
    var centroid := ComputeCentroid(norm);
    var bits := ComputeBits(norm);
    var binaryHash := PackHex(bits);
    f := Features(grid, vProfile, hProfile, inkDensity, aspectRatio, quadrants, centroid, binaryHash);
  }
}
