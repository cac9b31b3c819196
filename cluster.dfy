// The integer steps of `extractLargestCluster` (src/App.js:77-100): the ink
// mask `gray < thresh`, the ink-ratio guard, the mask of the largest region,
// its bounding box, the padding, and the 32 x 32 resampling of the padded crop.

module Cluster {
  import opened Common
  import opened Labeling

  /** Side of the resampled grid (`S`). */
  const S := 32

  // ---------------------------------------------------------------------------
  // The ink mask

  /** `binary[i] = gray[i] < thresh ? 1 : 0`. */
  function Mask(gray: seq<real>, thresh: int): (m: seq<int>)
    ensures |m| == |gray|
  {
    seq(|gray|, i requires 0 <= i < |gray| => if gray[i] < thresh as real then 1 else 0)
  }

  /** Number of intensities strictly below `thresh`. */
  function CountBelow(gray: seq<real>, thresh: int): (c: nat)
    ensures c <= |gray|
  {
    if |gray| == 0 then 0
    else CountBelow(gray[..|gray| - 1], thresh) + (if gray[|gray| - 1] < thresh as real then 1 else 0)
  }

  /** The sum of a sequence of integers. */
  function Sum(s: seq<int>): int
  {
    if |s| == 0 then 0 else Sum(s[..|s| - 1]) + s[|s| - 1]
  }

  /** Summing the mask counts the dark pixels, so the ink count is 0 exactly when the mask is empty. */
  lemma {:induction false} MaskSumCountsInk(gray: seq<real>, thresh: int)
    ensures Sum(Mask(gray, thresh)) == CountBelow(gray, thresh)
    ensures CountBelow(gray, thresh) == 0 <==> NoInk(Mask(gray, thresh))
  {
    if |gray| > 0 {
      var prefix := gray[..|gray| - 1];
      MaskSumCountsInk(prefix, thresh);
      assert Mask(gray, thresh)[..|gray| - 1] == Mask(prefix, thresh);
      if CountBelow(prefix, thresh) > 0 {
        var i :| 0 <= i < |prefix| && Mask(prefix, thresh)[i] != 0;
        assert Mask(gray, thresh)[i] != 0;
      }
    }
  }

  /** Fill `binary` from the intensities. */
  method Binarize(gray: seq<real>, thresh: int) returns (binary: array<int>)
    ensures binary.Length == |gray| && binary[..] == Mask(gray, thresh)
  {
    binary := new int[|gray|];
    for i := 0 to |gray|
      invariant forall j :: 0 <= j < i ==> binary[j] == Mask(gray, thresh)[j]
    {
      binary[i] := if gray[i] < thresh as real then 1 else 0;
    }
  }

  /** `for (...) inkCount += binary[i]`. */
  method CountInk(binary: array<int>) returns (inkCount: int)
    ensures inkCount == Sum(binary[..])
  {
    inkCount := 0;
    for i := 0 to binary.Length
      invariant inkCount == Sum(binary[..i])
    {
      assert binary[..i + 1][..i] == binary[..i];
      inkCount := inkCount + binary[i];
    }
    assert binary[..binary.Length] == binary[..];
  }

  // ---------------------------------------------------------------------------
  // The ink-ratio guard

  /** `inkCount / binary.length` as a JavaScript number: `0 / 0` is NaN. */
  function InkRatio(ink: nat, n: nat): (r: Number)
    requires ink <= n
    ensures r == NaN <==> n == 0
  {
    if n == 0 then NaN else Num(ink as real / n as real)
  }

  /**
   * The guard as written: reject when the ratio is below 0.5% or above 85%.
   * Both comparisons are false for NaN, so a mask of length 0 would pass; in
   * the program such an image throws at `getImageData` before the guard.
   */
  predicate RejectedAsWritten(ink: nat, n: nat)
    requires ink <= n
  {
    match InkRatio(ink, n)
    case NaN => false
    case Num(r) => r < 0.005 || r > 0.85
  }

  /**
   * The guard as evidently intended, in integers: reject an image with no
   * pixels, with fewer than 1 ink pixel in 200, or with more than 17 in 20.
   */
  predicate InkRejected(ink: nat, n: nat)
  {
    n == 0 || 200 * ink < n || 20 * ink > 17 * n
  }

  /** The latent discrepancy: a mask of length 0 passes the guard as written. */
  lemma EmptyImagePassesGuard()
    ensures !RejectedAsWritten(0, 0) && InkRejected(0, 0)
  {
  }

  /** The ratio bounds of the guard in integers: at least 1 in 200 pixels and at most 17 in 20. */
  lemma RatioBounds(ink: nat, n: nat)
    requires 0 < n && ink <= n
    ensures ink as real / n as real >= 0.005 <==> 200 * ink >= n
    ensures ink as real / n as real <= 0.85 <==> 20 * ink <= 17 * n
  {
    RatioCompare(ink as real, n as real, 0.005);
    RatioCompare(ink as real, n as real, 0.85);
  }

  /**
   * The corrected guard agrees with the written one on every non-empty image,
   * and an accepted image has between 0.5% and 85% ink, so at least one ink pixel.
   */
  lemma InkGuardCorrected(ink: nat, n: nat)
    requires ink <= n
    ensures InkRejected(ink, n) <==> n == 0 || ink as real / n as real < 0.005 || ink as real / n as real > 0.85
    ensures n > 0 ==> (InkRejected(ink, n) <==> RejectedAsWritten(ink, n))
    ensures !InkRejected(ink, n) ==> ink > 0
  {
    if n > 0 {
      RatioBounds(ink, n);
    }
  }

  // ---------------------------------------------------------------------------
  // The largest region and its bounding box

  /** `mask[i] = cc.labels[i] === cc.largestLabel ? 1 : 0`. */
  method RegionMask(labels: array<int>, largestLabel: int) returns (mask: array<int>)
    ensures mask.Length == labels.Length
    ensures forall i :: 0 <= i < labels.Length ==> mask[i] == if labels[i] == largestLabel then 1 else 0
  {
    mask := new int[labels.Length];
    for i := 0 to labels.Length
      invariant forall j :: 0 <= j < i ==> mask[j] == if labels[j] == largestLabel then 1 else 0
    {
      mask[i] := if labels[i] == largestLabel then 1 else 0;
    }
  }

  /** The mask of the pixels labelled `largest`, as `RegionMask` fills it. */
  function Region(labels: seq<int>, largest: int): (m: seq<int>)
    ensures |m| == |labels| && Binary(m)
    ensures forall i :: 0 <= i < |labels| ==> (m[i] != 0 <==> labels[i] == largest)
  {
    seq(|labels|, i requires 0 <= i < |labels| => if labels[i] == largest then 1 else 0)
  }

  /** A label that occurs gives a region with at least one set pixel. */
  lemma RegionHasInk(labels: seq<int>, largest: int)
    requires largest in labels
    ensures AnyInk(Region(labels, largest), |labels|)
  {
    var i :| 0 <= i < |labels| && labels[i] == largest;
    assert Region(labels, largest)[i] != 0;
  }

  /** The box after the pixel at (y, x) was found set: each bound moves out to include it. */
  function Include(b: Box, y: int, x: int): Box
  {
    Box(if y < b.rmin then y else b.rmin, if y > b.rmax then y else b.rmax,
        if x < b.cmin then x else b.cmin, if x > b.cmax then x else b.cmax)
  }

  /** The box the scan of the first `n` pixels (raster order) has built, starting from `rmin = h, rmax = 0, cmin = w, cmax = 0`. */
  function BoxScan(mask: seq<int>, w: nat, h: nat, n: nat): Box
    requires |mask| == w * h && n <= |mask|
  {
    if n == 0 then Box(h, 0, w, 0)
    else
      var b := BoxScan(mask, w, h, n - 1);
      if mask[n - 1] != 0 then Include(b, (n - 1) / w, (n - 1) % w) else b
  }

  /** Some pixel below `n` is set. */
  predicate AnyInk(mask: seq<int>, n: nat)
    requires n <= |mask|
  {
    exists i :: 0 <= i < n && mask[i] != 0
  }

  /** With no set pixel the box keeps its starting value `(h, 0, w, 0)`. */
  lemma {:induction false} BoxScanEmpty(mask: seq<int>, w: nat, h: nat, n: nat)
    requires |mask| == w * h && n <= |mask| && !AnyInk(mask, n)
    ensures BoxScan(mask, w, h, n) == Box(h, 0, w, 0)
  {
    if n > 0 {
      assert mask[n - 1] == 0;
      BoxScanEmpty(mask, w, h, n - 1);
    }
  }

  /** The pixel at raster index `i` lies inside box `b`. */
  predicate Covers(b: Box, w: nat, i: int)
    requires w > 0
  {
    b.rmin <= i / w <= b.rmax && b.cmin <= i % w <= b.cmax
  }

  /** Every set pixel scanned lies in the box. */
  lemma {:induction false} BoxScanCovers(mask: seq<int>, w: nat, h: nat, n: nat)
    requires |mask| == w * h && n <= |mask| && w > 0
    ensures forall i :: 0 <= i < n && mask[i] != 0 ==> Covers(BoxScan(mask, w, h, n), w, i)
  {
    if n > 0 {
      BoxScanCovers(mask, w, h, n - 1);
    }
  }

  /** The box is tight: each of its four sides passes through a set pixel. */
  lemma {:induction false} BoxScanAttained(mask: seq<int>, w: nat, h: nat, n: nat)
    requires |mask| == w * h && n <= |mask| && w > 0 && AnyInk(mask, n)
    ensures var b := BoxScan(mask, w, h, n);
      (exists i :: 0 <= i < n && mask[i] != 0 && i / w == b.rmin) &&
      (exists i :: 0 <= i < n && mask[i] != 0 && i / w == b.rmax) &&
      (exists i :: 0 <= i < n && mask[i] != 0 && i % w == b.cmin) &&
      (exists i :: 0 <= i < n && mask[i] != 0 && i % w == b.cmax)
  {
    var i := n - 1;
    if !AnyInk(mask, i) {
      BoxScanEmpty(mask, w, h, i);
      RasterCoordinates(w, h, i);
    } else {
      BoxScanAttained(mask, w, h, i);
    }
  }

  /** When a set pixel exists, the box lies inside the image and is not empty. */
  lemma {:induction false} BoxScanInside(mask: seq<int>, w: nat, h: nat, n: nat)
    requires |mask| == w * h && n <= |mask| && AnyInk(mask, n)
    ensures var b := BoxScan(mask, w, h, n);
      0 <= b.rmin <= b.rmax < h && 0 <= b.cmin <= b.cmax < w
  {
    var i := n - 1;
    RasterCoordinates(w, h, i);
    if !AnyInk(mask, i) {
      BoxScanEmpty(mask, w, h, i);
    } else {
      BoxScanInside(mask, w, h, i);
    }
  }

  /** One row of the bounding-box loop. */
  method BoxRow(mask: array<int>, w: nat, h: nat, y: nat, box0: Box) returns (box: Box)
    requires mask.Length == w * h && y < h
    requires y * w <= w * h && box0 == BoxScan(mask[..], w, h, y * w)
    ensures (y + 1) * w <= w * h && box == BoxScan(mask[..], w, h, (y + 1) * w)
  {
    NextRow(w, h, y);
    box := box0;
    for x := 0 to w
      invariant box == BoxScan(mask[..], w, h, y * w + x)
    {
      var i := Idx(w, h, y, x);
      assert i == y * w + x && mask[..][i] == mask[i];
      if mask[i] != 0 {
        if y < box.rmin { box := box.(rmin := y); }
        if y > box.rmax { box := box.(rmax := y); }
        if x < box.cmin { box := box.(cmin := x); }
        if x > box.cmax { box := box.(cmax := x); }
      }
    }
  }

  /** The bounding-box loop of `extractLargestCluster`. */
  method BoundingBox(mask: array<int>, w: nat, h: nat) returns (box: Box)
    requires mask.Length == w * h
    ensures box == BoxScan(mask[..], w, h, mask.Length)
  {
    box := Box(h, 0, w, 0);
    for y := 0 to h
      invariant y * w <= w * h
      invariant box == BoxScan(mask[..], w, h, y * w)
    {
      box := BoxRow(mask, w, h, y, box);
    }
    assert h * w == mask.Length;
  }

  // ---------------------------------------------------------------------------
  // Padding

  /** The floor of an exact quotient is Euclidean integer division. */
  lemma FloorOfQuotient(a: int, d: int)
    requires d > 0
    ensures (a as real / d as real).Floor == a / d
  {
    var q := a / d;
    assert q * d <= a < q * d + d;
    assert (q * d) as real == q as real * d as real;
    assert (q * d + d) as real == (q + 1) as real * d as real;
    RatioCompare(a as real, d as real, q as real);
    RatioCompare(a as real, d as real, (q + 1) as real);
  }

  /** `pad = Math.max(2, Math.round(Math.min(w, h) * .015))`. */
  function PadAmount(w: nat, h: nat): (p: int)
    ensures p >= 2
    ensures p == 2 || p as real - 0.5 <= 0.015 * Min(w, h) as real < p as real + 0.5
  {
    Max(2, Round(0.015 * Min(w, h) as real))
  }

  /**
   * The padding in integers: 1.5% of the shorter side rounded half up is
   * `(3m + 100) / 200`, so images whose shorter side is below 167 pixels get 2.
   */
  lemma PadAmountInIntegers(w: nat, h: nat)
    ensures PadAmount(w, h) == Max(2, (3 * Min(w, h) + 100) / 200)
    ensures Min(w, h) < 167 <==> PadAmount(w, h) == 2
  {
    var m := Min(w, h);
    assert 0.015 * m as real + 0.5 == (3 * m + 100) as real / 200.0;
    FloorOfQuotient(3 * m + 100, 200);
  }

  /** The padded box, each side moved out by `pad` and clamped to the image. */
  function PadBox(b: Box, pad: int, w: nat, h: nat): Box
  {
    Box(Max(0, b.rmin - pad), Min(h - 1, b.rmax + pad), Max(0, b.cmin - pad), Min(w - 1, b.cmax + pad))
  }

  /** The box lies inside a `w` x `h` image and is not empty. */
  predicate InsideImage(b: Box, w: nat, h: nat)
  {
    0 <= b.rmin <= b.rmax < h && 0 <= b.cmin <= b.cmax < w
  }

  /**
   * Padding a box inside the image gives a box inside the image that contains
   * it, each of whose sides is either `pad` further out or on the image edge.
   */
  lemma PaddedBoxInside(b: Box, pad: nat, w: nat, h: nat)
    requires InsideImage(b, w, h)
    ensures var pb := PadBox(b, pad, w, h);
      InsideImage(pb, w, h) &&
      pb.rmin <= b.rmin && b.rmax <= pb.rmax && pb.cmin <= b.cmin && b.cmax <= pb.cmax &&
      (pb.rmin == 0 || pb.rmin == b.rmin - pad) && (pb.rmax == h - 1 || pb.rmax == b.rmax + pad) &&
      (pb.cmin == 0 || pb.cmin == b.cmin - pad) && (pb.cmax == w - 1 || pb.cmax == b.cmax + pad)
  {
  }

  // ---------------------------------------------------------------------------
  // Resampling windows

  /** `Math.floor(x * sx) + cmin` with `sx = cw / S`: the first column of window `x`. */
  function WindowLo(lo: int, hi: int, x: int): int
  {
    lo + (x * (hi - lo + 1)) / S
  }

  /** `Math.min(cmax, Math.floor((x + 1) * sx) + cmin)`: the last column of window `x`. */
  function WindowHi(lo: int, hi: int, x: int): int
  {
    Min(hi, lo + ((x + 1) * (hi - lo + 1)) / S)
  }

  lemma DivMonotone(a: int, b: int, d: int)
    requires 0 <= a <= b && d > 0
    ensures a / d <= b / d
  {
    if a / d > b / d {
      MulMonotone(b / d + 1, a / d, d);
      assert false;
    }
  }

  lemma DivBelow(a: int, d: int, e: int)
    requires 0 <= a < d * e && d > 0
    ensures a / d < e
  {
    if a / d >= e {
      MulMonotone(e, a / d, d);
      assert false;
    }
  }

  /** Every window is non-empty and lies inside `[lo..hi]`. */
  lemma WindowInside(lo: int, hi: int, x: int)
    requires lo <= hi && 0 <= x < S
    ensures lo <= WindowLo(lo, hi, x) <= WindowHi(lo, hi, x) <= hi
  {
    var e := hi - lo + 1;
    MulMonotone(x, x + 1, e);
    DivMonotone(x * e, (x + 1) * e, S);
    MulMonotone(x + 1, S, e);
    DivBelow(x * e, S, e);
  }

  /**
   * The windows cover `[lo..hi]` without gaps: the first starts at `lo`, the
   * last ends at `hi`, and each ends on the column where the next one starts.
   */
  lemma WindowsTile(lo: int, hi: int)
    requires lo <= hi
    ensures WindowLo(lo, hi, 0) == lo && WindowHi(lo, hi, S - 1) == hi
    ensures forall x :: 0 <= x < S - 1 ==> WindowHi(lo, hi, x) == WindowLo(lo, hi, x + 1)
  {
    forall x | 0 <= x < S - 1
      ensures WindowHi(lo, hi, x) == WindowLo(lo, hi, x + 1)
    {
      WindowInside(lo, hi, x + 1);
    }
  }

  // ---------------------------------------------------------------------------
  // Window sums

  /** Every entry of the mask is 0 or 1. */
  predicate Binary(mask: seq<int>)
  {
    forall i :: 0 <= i < |mask| ==> mask[i] == 0 || mask[i] == 1
  }

  /** The mask summed over columns `x0 .. n-1` of row `y`. */
  function RowSum(mask: seq<int>, w: nat, h: nat, y: int, x0: int, n: int): int
    requires |mask| == w * h && 0 <= y < h && 0 <= x0 <= n <= w
    decreases n - x0
  {
    if n == x0 then 0 else RowSum(mask, w, h, y, x0, n - 1) + mask[Idx(w, h, y, n - 1)]
  }

  /** The mask summed over rows `y0 .. m-1` and columns `x0 .. x1-1`. */
  function RectSum(mask: seq<int>, w: nat, h: nat, y0: int, m: int, x0: int, x1: int): int
    requires |mask| == w * h && 0 <= y0 <= m <= h && 0 <= x0 <= x1 <= w
    decreases m - y0
  {
    if m == y0 then 0 else RectSum(mask, w, h, y0, m - 1, x0, x1) + RowSum(mask, w, h, m - 1, x0, x1)
  }

  lemma {:induction false} RowSumBounds(mask: seq<int>, w: nat, h: nat, y: int, x0: int, n: int)
    requires |mask| == w * h && 0 <= y < h && 0 <= x0 <= n <= w && Binary(mask)
    ensures 0 <= RowSum(mask, w, h, y, x0, n) <= n - x0
    decreases n - x0
  {
    if n > x0 {
      RowSumBounds(mask, w, h, y, x0, n - 1);
      var i := Idx(w, h, y, n - 1);
    }
  }

  /** A 0/1 mask summed over a rectangle lies between 0 and the rectangle's area. */
  lemma {:induction false} RectSumBounds(mask: seq<int>, w: nat, h: nat, y0: int, m: int, x0: int, x1: int)
    requires |mask| == w * h && 0 <= y0 <= m <= h && 0 <= x0 <= x1 <= w && Binary(mask)
    ensures 0 <= RectSum(mask, w, h, y0, m, x0, x1) <= (m - y0) * (x1 - x0)
    decreases m - y0
  {
    if m > y0 {
      RectSumBounds(mask, w, h, y0, m - 1, x0, x1);
      RowSumBounds(mask, w, h, m - 1, x0, x1);
      MulSucc(m - 1 - y0, m - y0, x1 - x0);
    }
  }

  /** One row of a window: `s += mask[yy * w + xx]; c++` for `xx` in `[x0..x1]`. */
  method WindowRow(mask: array<int>, w: nat, h: nat, yy: int, x0: int, x1: int, s0: int, c0: int)
    returns (s: int, c: int)
    requires mask.Length == w * h && 0 <= yy < h && 0 <= x0 <= x1 < w
    ensures s == s0 + RowSum(mask[..], w, h, yy, x0, x1 + 1) && c == c0 + (x1 - x0 + 1)
  {
    s, c := s0, c0;
    for xx := x0 to x1 + 1
      invariant s == s0 + RowSum(mask[..], w, h, yy, x0, xx) && c == c0 + (xx - x0)
    {
      var i := Idx(w, h, yy, xx);
      assert mask[..][i] == mask[i];
      s := s + mask[i];
      c := c + 1;
    }
  }

  /** The two inner loops of the resampling: the sum `s` and count `c` of window `[x0..x1] x [y0..y1]`. */
  method WindowSum(mask: array<int>, w: nat, h: nat, y0: int, y1: int, x0: int, x1: int)
    returns (s: int, c: int)
    requires mask.Length == w * h && 0 <= y0 <= y1 < h && 0 <= x0 <= x1 < w
    ensures s == RectSum(mask[..], w, h, y0, y1 + 1, x0, x1 + 1)
    ensures c == (y1 - y0 + 1) * (x1 - x0 + 1)
  {
    s, c := 0, 0;
    for yy := y0 to y1 + 1
      invariant s == RectSum(mask[..], w, h, y0, yy, x0, x1 + 1)
      invariant c == (yy - y0) * (x1 - x0 + 1)
    {
      s, c := WindowRow(mask, w, h, yy, x0, x1, s, c);
      MulSucc(yy - y0, yy + 1 - y0, x1 - x0 + 1);
    }
  }

  // ---------------------------------------------------------------------------
  // The 32 x 32 grid

  /** The mean of the mask over rows `[y0..y1]` and columns `[x0..x1]`, bounds inclusive. */
  function WindowMean(mask: seq<int>, w: nat, h: nat, y0: int, y1: int, x0: int, x1: int): real
    requires |mask| == w * h && 0 <= y0 <= y1 < h && 0 <= x0 <= x1 < w
  {
    MulAtLeast(y1 - y0 + 1, x1 - x0 + 1);
    RectSum(mask, w, h, y0, y1 + 1, x0, x1 + 1) as real / ((y1 - y0 + 1) * (x1 - x0 + 1)) as real
  }

  /** `norm[y * S + x]`: the mean of the mask over the window of cell (y, x) of the box. */
  function Cell(mask: seq<int>, w: nat, h: nat, b: Box, y: int, x: int): real
    requires |mask| == w * h && InsideImage(b, w, h) && 0 <= y < S && 0 <= x < S
  {
    WindowInside(b.rmin, b.rmax, y);
    WindowInside(b.cmin, b.cmax, x);
    WindowMean(mask, w, h, WindowLo(b.rmin, b.rmax, y), WindowHi(b.rmin, b.rmax, y),
      WindowLo(b.cmin, b.cmax, x), WindowHi(b.cmin, b.cmax, x))
  }

  /** The whole grid `norm`, row-major. */
  function Resampled(mask: seq<int>, w: nat, h: nat, b: Box): (norm: seq<real>)
    requires |mask| == w * h && InsideImage(b, w, h)
    ensures |norm| == S * S
  {
    seq(S * S, i requires 0 <= i < S * S => Cell(mask, w, h, b, i / S, i % S))
  }

  /** Every entry of the grid. */
  predicate InUnit(norm: seq<real>)
  {
    forall i :: 0 <= i < |norm| ==> 0.0 <= norm[i] <= 1.0
  }

  /** A window mean of a 0/1 mask is an average of 0s and 1s, so it lies in `[0, 1]`. */
  lemma WindowMeanInUnit(mask: seq<int>, w: nat, h: nat, y0: int, y1: int, x0: int, x1: int)
    requires |mask| == w * h && 0 <= y0 <= y1 < h && 0 <= x0 <= x1 < w && Binary(mask)
    ensures 0.0 <= WindowMean(mask, w, h, y0, y1, x0, x1) <= 1.0
  {
    var sum := RectSum(mask, w, h, y0, y1 + 1, x0, x1 + 1);
    var area := (y1 - y0 + 1) * (x1 - x0 + 1);
    RectSumBounds(mask, w, h, y0, y1 + 1, x0, x1 + 1);
    MulAtLeast(y1 - y0 + 1, x1 - x0 + 1);
    RatioCompare(sum as real, area as real, 1.0);
    RatioCompare(sum as real, area as real, 0.0);
  }

  lemma CellInUnit(mask: seq<int>, w: nat, h: nat, b: Box, y: int, x: int)
    requires |mask| == w * h && InsideImage(b, w, h) && 0 <= y < S && 0 <= x < S && Binary(mask)
    ensures 0.0 <= Cell(mask, w, h, b, y, x) <= 1.0
  {
    WindowInside(b.rmin, b.rmax, y);
    WindowInside(b.cmin, b.cmax, x);
    WindowMeanInUnit(mask, w, h, WindowLo(b.rmin, b.rmax, y), WindowHi(b.rmin, b.rmax, y),
      WindowLo(b.cmin, b.cmax, x), WindowHi(b.cmin, b.cmax, x));
  }

  /** The grid of a 0/1 mask lies in `[0, 1]`. */
  lemma ResampledInUnit(mask: seq<int>, w: nat, h: nat, b: Box)
    requires |mask| == w * h && InsideImage(b, w, h) && Binary(mask)
    ensures InUnit(Resampled(mask, w, h, b))
  {
    forall i | 0 <= i < S * S
      ensures 0.0 <= Resampled(mask, w, h, b)[i] <= 1.0
    {
      CellInUnit(mask, w, h, b, i / S, i % S);
    }
  }

  /** One cell: the window sum and count, then `c > 0 ? s / c : 0`. */
  method ResampleCell(mask: array<int>, w: nat, h: nat, b: Box, y: int, x: int) returns (v: real)
    requires mask.Length == w * h && InsideImage(b, w, h) && 0 <= y < S && 0 <= x < S
    ensures v == Cell(mask[..], w, h, b, y, x)
  {
    WindowInside(b.rmin, b.rmax, y);
    WindowInside(b.cmin, b.cmax, x);
    var y0, y1 := WindowLo(b.rmin, b.rmax, y), WindowHi(b.rmin, b.rmax, y);
    var x0, x1 := WindowLo(b.cmin, b.cmax, x), WindowHi(b.cmin, b.cmax, x);
    var s, c := WindowSum(mask, w, h, y0, y1, x0, x1);
    MulAtLeast(y1 - y0 + 1, x1 - x0 + 1);
    v := if c > 0 then s as real / c as real else 0.0;
  }

  /** One row of cells of the resampling loop. */
  method ResampleRow(mask: array<int>, w: nat, h: nat, b: Box, y: int, norm: array<real>)
    requires mask.Length == w * h && InsideImage(b, w, h) && 0 <= y < S
    requires norm.Length == S * S
    modifies norm
    ensures forall i :: 0 <= i < S * S && !(y * S <= i < y * S + S) ==> norm[i] == old(norm[i])
    ensures forall i :: y * S <= i < y * S + S ==> norm[i] == Resampled(mask[..], w, h, b)[i]
  {
    for x := 0 to S
      invariant mask[..] == old(mask[..])
      invariant forall i :: 0 <= i < S * S && !(y * S <= i < y * S + x) ==> norm[i] == old(norm[i])
      invariant forall i :: y * S <= i < y * S + x ==> norm[i] == Resampled(mask[..], w, h, b)[i]
    {
      var v := ResampleCell(mask, w, h, b, y, x);
      assert (y * S + x) / S == y && (y * S + x) % S == x;
      norm[y * S + x] := v;
    }
  }

  /** The resampling loop: `norm` is the 32 x 32 grid of window means. */
  method Resample(mask: array<int>, w: nat, h: nat, b: Box) returns (norm: array<real>)
    requires mask.Length == w * h && InsideImage(b, w, h)
    ensures norm.Length == S * S && norm[..] == Resampled(mask[..], w, h, b)
  {
    norm := new real[S * S];
    for y := 0 to S
      invariant forall i :: 0 <= i < y * S ==> norm[i] == Resampled(mask[..], w, h, b)[i]
    {
      ResampleRow(mask, w, h, b, y, norm);
    }
  }
}
