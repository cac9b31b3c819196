// Otsu's method (`otsu`, src/App.js): a 256-bin histogram of the rounded,
// clamped intensities, then a scan of every candidate threshold that keeps the
// first one maximising the between-class variance.

module Threshold {
  import opened Common

  /** Number of histogram bins. */
  const Bins := 256

  /** The threshold returned when no candidate leaves both classes non-empty. */
  const DefaultThreshold := 128

  /** The bin of an intensity: its rounded value clamped to `[0, 255]`. */
  function Bucket(g: real): (b: int)
    ensures 0 <= b < Bins
    ensures 0 <= Round(g) < Bins ==> b == Round(g)
  {
    Min(Bins - 1, Max(0, Round(g)))
  }

  /** How many pixels of `gray` fall into bin `b`. */
  function CountBucket(gray: seq<real>, b: int): (c: nat)
    ensures c <= |gray|
  {
    if |gray| == 0 then 0
    else CountBucket(gray[..|gray| - 1], b) + (if Bucket(gray[|gray| - 1]) == b then 1 else 0)
  }

  /** The histogram: bin `b` counts the pixels whose bucket is `b`. */
  function Histogram(gray: seq<real>): (hist: seq<nat>)
    ensures |hist| == Bins
  {
    seq(Bins, b => CountBucket(gray, b))
  }

  /** Pixels in bins `0 .. n-1` (the background weight `wB` once `n = t + 1`). */
  function Weight(hist: seq<nat>, n: nat): nat
    requires n <= |hist|
  {
    if n == 0 then 0 else Weight(hist, n - 1) + hist[n - 1]
  }

  /** Sum of `i * hist[i]` over bins `0 .. n-1` (`sumB` once `n = t + 1`). */
  function Mass(hist: seq<nat>, n: nat): nat
    requires n <= |hist|
  {
    if n == 0 then 0 else Mass(hist, n - 1) + (n - 1) * hist[n - 1]
  }

  /** All pixels of the histogram (`total`). */
  function Total(hist: seq<nat>): nat
  {
    Weight(hist, |hist|)
  }

  /** Threshold `t` splits the pixels into two non-empty classes, bins `<= t` and bins `> t`. */
  predicate IsSplit(hist: seq<nat>, t: int)
    requires |hist| == Bins
  {
    0 <= t < Bins && 0 < Weight(hist, t + 1) < Total(hist)
  }

  /** Some threshold below `n` is a split. */
  predicate HasSplitBelow(hist: seq<nat>, n: int)
    requires |hist| == Bins
  {
    exists t :: 0 <= t < n && IsSplit(hist, t)
  }

  /** The between-class variance `wB * wF * (meanB - meanF)^2` of the split at `t`. */
  function Variance(hist: seq<nat>, t: int): real
    requires |hist| == Bins && IsSplit(hist, t)
  {
    var wB := Weight(hist, t + 1);
    var sumB := Mass(hist, t + 1);
    ClassVariance(wB, Total(hist) - wB, sumB, Mass(hist, |hist|) - sumB)
  }

  /** Between-class variance of a background of weight `wB` and mass `sumB` against a foreground of weight `wF` and mass `sumF`. */
  function ClassVariance(wB: nat, wF: nat, sumB: int, sumF: int): real
    requires wB > 0 && wF > 0
  {
    var diff := sumB as real / wB as real - sumF as real / wF as real;
    wB as real * wF as real * diff * diff
  }

  /**
   * The threshold after the candidates `0 .. n-1` have been scanned: a split
   * replaces the current choice only when its variance is strictly larger.
   */
  function OtsuUpTo(hist: seq<nat>, n: nat): (t: int)
    requires |hist| == Bins && n <= Bins
    ensures HasSplitBelow(hist, n) ==> 0 <= t < n && IsSplit(hist, t)
    ensures !HasSplitBelow(hist, n) ==> t == DefaultThreshold
  {
    if n == 0 then DefaultThreshold
    else
      var p := OtsuUpTo(hist, n - 1);
      if IsSplit(hist, n - 1) && (!HasSplitBelow(hist, n - 1) || Variance(hist, n - 1) > Variance(hist, p))
      then n - 1
      else p
  }

  /** The threshold `otsu` returns for the intensities `gray`. */
  function OtsuThreshold(gray: seq<real>): int
  {
    var hist := Histogram(gray);
    OtsuUpTo(hist, |hist|)
  }

  // ---------------------------------------------------------------------------
  // The histogram

  lemma {:induction false} WeightBump(h1: seq<nat>, h2: seq<nat>, b: int, n: nat)
    requires |h1| == |h2| && n <= |h1|
    requires forall k :: 0 <= k < |h1| ==> h2[k] == h1[k] + (if k == b then 1 else 0)
    ensures Weight(h2, n) == Weight(h1, n) + (if 0 <= b < n then 1 else 0)
  {
    if n > 0 {
      WeightBump(h1, h2, b, n - 1);
    }
  }

  /** The bins of the histogram add up to the number of pixels. */
  lemma {:induction false} HistogramTotal(gray: seq<real>)
    ensures Total(Histogram(gray)) == |gray|
  {
    if |gray| == 0 {
      ZeroWeight(Histogram(gray), |Histogram(gray)|);
    } else {
      var prefix := gray[..|gray| - 1];
      HistogramTotal(prefix);
      WeightBump(Histogram(prefix), Histogram(gray), Bucket(gray[|gray| - 1]), |Histogram(gray)|);
    }
  }

  lemma {:induction false} ZeroWeight(hist: seq<nat>, n: nat)
    requires n <= |hist| && forall k :: 0 <= k < |hist| ==> hist[k] == 0
    ensures Weight(hist, n) == 0
  {
    if n > 0 {
      ZeroWeight(hist, n - 1);
    }
  }

  lemma {:induction false} WeightMonotone(hist: seq<nat>, m: nat, n: nat)
    requires m <= n <= |hist|
    ensures Weight(hist, m) <= Weight(hist, n)
  {
    if m < n {
      WeightMonotone(hist, m, n - 1);
    }
  }

  // ---------------------------------------------------------------------------
  // The variance of a split is positive

  lemma {:induction false} MassBelow(hist: seq<nat>, n: nat)
    requires 1 <= n <= |hist|
    ensures Mass(hist, n) <= (n - 1) * Weight(hist, n)
  {
    if n > 1 {
      MassBelow(hist, n - 1);
      MassBelowStep(n - 1, hist[n - 1], Weight(hist, n - 1), Weight(hist, n), Mass(hist, n - 1), Mass(hist, n));
    }
  }

  /** Adding `v` pixels of value `k` keeps the mass at most `k` times the weight. */
  lemma MassBelowStep(k: int, v: int, w0: int, w1: int, s0: int, s1: int)
    requires k >= 1 && v >= 0 && w0 >= 0 && s0 <= (k - 1) * w0
    requires w1 == w0 + v && s1 == s0 + k * v
    ensures s1 <= k * w1
  {
    MulMonotone(k - 1, k, w0);
    assert k * w1 == k * w0 + k * v;
  }

  lemma {:induction false} MassAbove(hist: seq<nat>, m: nat, n: nat)
    requires m <= n <= |hist|
    ensures Mass(hist, n) - Mass(hist, m) >= m * (Weight(hist, n) - Weight(hist, m))
  {
    if m < n {
      MassAbove(hist, m, n - 1);
      MassAboveStep(m, n - 1, hist[n - 1], Weight(hist, m), Weight(hist, n - 1), Weight(hist, n),
        Mass(hist, n - 1) - Mass(hist, m), Mass(hist, n) - Mass(hist, m));
    }
  }

  /** Adding `v` pixels of value `k >= m` keeps the mass at least `m` times the weight. */
  lemma MassAboveStep(m: int, k: int, v: int, wm: int, w0: int, w1: int, s0: int, s1: int)
    requires 0 <= m <= k && v >= 0 && s0 >= m * (w0 - wm)
    requires w1 == w0 + v && s1 == s0 + k * v
    ensures s1 >= m * (w1 - wm)
  {
    MulMonotone(m, k, v);
    assert m * (w1 - wm) == m * (w0 - wm) + m * v;
  }

  /**
   * The background mean is at most `t` and the foreground mean at least `t + 1`,
   * so every split has a positive variance and beats the initial `best = 0`.
   */
  lemma VariancePositive(hist: seq<nat>, t: int)
    requires |hist| == Bins && IsSplit(hist, t)
    ensures Variance(hist, t) > 0.0
  {
    var wB := Weight(hist, t + 1);
    var sumB := Mass(hist, t + 1);
    MassBelow(hist, t + 1);
    MassAbove(hist, t + 1, |hist|);
    ClassVariancePositive(wB, Total(hist) - wB, sumB, Mass(hist, |hist|) - sumB, t);
  }

  lemma ClassVariancePositive(wB: nat, wF: nat, sumB: int, sumF: int, t: int)
    requires wB > 0 && wF > 0
    requires sumB <= t * wB && sumF >= (t + 1) * wF
    ensures ClassVariance(wB, wF, sumB, sumF) > 0.0
  {
    var meanB := sumB as real / wB as real;
    var meanF := sumF as real / wF as real;
    DivAtMost(sumB as real, wB as real, t as real);
    DivAtLeast(sumF as real, wF as real, (t + 1) as real);
    var weights := wB as real * wF as real;
    assert weights >= 1.0 by {
      MulAtLeast(wB, wF);
    }
    ProductPositive(weights, meanB - meanF);
  }

  lemma ProductPositive(a: real, d: real)
    requires a >= 1.0 && d <= -1.0
    ensures a * d * d > 0.0
  {
    assert d * d >= 1.0;
    assert a * d * d == a * (d * d);
  }

  lemma DivAtMost(x: real, y: real, c: real)
    requires y > 0.0 && x <= c * y
    ensures x / y <= c
  {
    assert x / y * y == x;
  }

  lemma DivAtLeast(x: real, y: real, c: real)
    requires y > 0.0 && x >= c * y
    ensures x / y >= c
  {
    assert x / y * y == x;
  }

  // ---------------------------------------------------------------------------
  // What the scan computes

  /**
   * The scan keeps the first threshold of maximal variance: every split scores
   * at most as much, every earlier split strictly less.
   */
  lemma {:induction false} OtsuUpToIsFirstMaximum(hist: seq<nat>, n: nat)
    requires |hist| == Bins && n <= Bins
    ensures HasSplitBelow(hist, n) ==>
      forall s :: 0 <= s < n && IsSplit(hist, s) ==> Variance(hist, s) <= Variance(hist, OtsuUpTo(hist, n))
    ensures HasSplitBelow(hist, n) ==>
      forall s :: 0 <= s < OtsuUpTo(hist, n) && IsSplit(hist, s) ==> Variance(hist, s) < Variance(hist, OtsuUpTo(hist, n))
  {
    if n > 0 {
      OtsuUpToIsFirstMaximum(hist, n - 1);
      var p := OtsuUpTo(hist, n - 1);
      if !HasSplitBelow(hist, n - 1) {
        assert forall s :: 0 <= s < n - 1 ==> !IsSplit(hist, s);
      }
    }
  }

  /** Candidates that are not splits do not change the choice. */
  lemma {:induction false} OtsuUpToStable(hist: seq<nat>, m: nat, n: nat)
    requires |hist| == Bins && m <= n <= Bins
    requires forall s :: m <= s < n ==> !IsSplit(hist, s)
    ensures OtsuUpTo(hist, n) == OtsuUpTo(hist, m)
    ensures HasSplitBelow(hist, n) == HasSplitBelow(hist, m)
  {
    if m < n {
      OtsuUpToStable(hist, m, n - 1);
    }
  }

  /** A split candidate replaces the current choice exactly when it is the first split or scores strictly higher. */
  lemma OtsuUpToSplitStep(hist: seq<nat>, t: nat)
    requires |hist| == Bins && t < Bins && IsSplit(hist, t)
    ensures HasSplitBelow(hist, t + 1)
    ensures OtsuUpTo(hist, t + 1) ==
      if !HasSplitBelow(hist, t) || Variance(hist, t) > Variance(hist, OtsuUpTo(hist, t)) then t else OtsuUpTo(hist, t)
  {
  }

  /** Once the background holds every pixel, no later threshold is a split. */
  lemma NoSplitAfterFull(hist: seq<nat>, t: int)
    requires |hist| == Bins && 0 <= t < Bins && Weight(hist, t + 1) == Total(hist)
    ensures forall s :: t <= s < Bins ==> !IsSplit(hist, s)
  {
    forall s | t <= s < Bins
      ensures !IsSplit(hist, s)
    {
      WeightMonotone(hist, t + 1, s + 1);
      WeightMonotone(hist, s + 1, |hist|);
    }
  }

  /**
   * `otsu` returns a threshold in `[0, 255]`: the first split of maximal
   * variance, or 128 when no threshold leaves both classes non-empty.
   */
  lemma OtsuThresholdIsFirstMaximum(gray: seq<real>)
    ensures 0 <= OtsuThreshold(gray) < Bins
    ensures !HasSplitBelow(Histogram(gray), Bins) ==> OtsuThreshold(gray) == DefaultThreshold
    ensures HasSplitBelow(Histogram(gray), Bins) ==>
      var hist, t := Histogram(gray), OtsuThreshold(gray);
      IsSplit(hist, t) &&
      (forall s :: IsSplit(hist, s) ==> Variance(hist, s) <= Variance(hist, t)) &&
      (forall s :: 0 <= s < t && IsSplit(hist, s) ==> Variance(hist, s) < Variance(hist, t))
  {
    OtsuUpToIsFirstMaximum(Histogram(gray), |Histogram(gray)|);
  }

  lemma {:induction false} CountOtherBucket(gray: seq<real>, b: int, k: int)
    requires forall i :: 0 <= i < |gray| ==> Bucket(gray[i]) == b
    requires k != b
    ensures CountBucket(gray, k) == 0
  {
    if |gray| > 0 {
      CountOtherBucket(gray[..|gray| - 1], b, k);
    }
  }

  lemma {:induction false} OneBinWeight(hist: seq<nat>, b: int, n: nat)
    requires n <= |hist| && 0 <= b < |hist|
    requires forall k :: 0 <= k < |hist| && k != b ==> hist[k] == 0
    ensures Weight(hist, n) == if b < n then hist[b] else 0
  {
    if n > 0 {
      OneBinWeight(hist, b, n - 1);
    }
  }

  /** When every pixel falls into one bin no threshold is a split, and `otsu` returns 128. */
  lemma OneBinGivesDefault(gray: seq<real>, b: int)
    requires 0 <= b < Bins
    requires forall i :: 0 <= i < |gray| ==> Bucket(gray[i]) == b
    ensures !HasSplitBelow(Histogram(gray), Bins)
    ensures OtsuThreshold(gray) == DefaultThreshold
  {
    var hist := Histogram(gray);
    forall k | 0 <= k < Bins && k != b
      ensures hist[k] == 0
    {
      CountOtherBucket(gray, b, k);
    }
    forall t | 0 <= t < Bins
      ensures !IsSplit(hist, t)
    {
      OneBinWeight(hist, b, t + 1);
      OneBinWeight(hist, b, |hist|);
    }
  }

  // ---------------------------------------------------------------------------
  // The algorithm

  /** The first loop of `otsu`: the histogram as a fresh `Int32Array`. */
  method BuildHistogram(gray: seq<real>) returns (hist: array<int>)
    ensures hist.Length == Bins
    ensures forall b :: 0 <= b < Bins ==> hist[b] == CountBucket(gray, b)
  {
    hist := new int[Bins](_ => 0);
    for i := 0 to |gray|
      invariant forall b :: 0 <= b < Bins ==> hist[b] == CountBucket(gray[..i], b)
    {
      var b := Bucket(gray[i]);
      assert gray[..i + 1][..i] == gray[..i];
      hist[b] := hist[b] + 1;
    }
    assert gray[..|gray|] == gray;
  }

  /** `otsu`: builds the histogram, then scans the thresholds in increasing order. */
  method Otsu(gray: seq<real>) returns (thresh: int)
    ensures 0 <= thresh < Bins
    ensures thresh == OtsuThreshold(gray)
  {
    var hist := BuildHistogram(gray);
    assert hist[..] == Histogram(gray);
    ghost var h: seq<nat> := hist[..];
    assert h == Histogram(gray) && Total(h) == |gray| by {
      HistogramTotal(gray);
    }
    var total := |gray|;
    var sumAll := 0;
    for k := 0 to Bins
      invariant hist[..] == h && sumAll == Mass(h, k)
    {
      sumAll := sumAll + k * hist[k];
    }
    var sumB, wB, best := 0, 0, 0.0;
    thresh := DefaultThreshold;
    for t := 0 to Bins
      invariant hist[..] == h
      invariant wB == Weight(h, t) && sumB == Mass(h, t)
      invariant thresh == OtsuUpTo(h, t)
      invariant best == if HasSplitBelow(h, t) then Variance(h, thresh) else 0.0
    {
      wB := wB + hist[t];
      assert wB == Weight(h, t + 1);
      if wB == 0 {
        OtsuUpToStable(h, t, t + 1);
        continue;
      }
      var wF := total - wB;
      if wF == 0 {
        NoSplitAfterFull(h, t);
        OtsuUpToStable(h, t, |h|);
        break;
      }
      WeightMonotone(h, t + 1, |h|);
      sumB := sumB + t * hist[t];
      var v := ClassVariance(wB, wF, sumB, sumAll - sumB);
      assert v == Variance(h, t) > 0.0 by {
        VariancePositive(h, t);
      }
      OtsuUpToSplitStep(h, t);
      if v > best {
        best := v;
        thresh := t;
      }
    }
  }
}
