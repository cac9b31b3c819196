// `extractLargestCluster` (src/App.js:67-116) from the grayscale image on, and
// the absent-descriptor guard of `matchScore` (src/App.js:123-124).

module Pipeline {
  import opened Common
  import opened Threshold
  import opened Labeling
  import opened Cluster
  import opened Descriptor

  /**
   * The descriptor of the largest dark region of a `w` x `h` grayscale image,
   * or `None` when the ink guard rejects the image.
   *
   * The guard is the corrected one: an image without pixels, on which the
   * source throws at `getImageData`, gives `None` (see `Cluster.InkRejected`). When a descriptor is returned, the ghost results
   * name the labelling it came from and the padded box it was cropped to.
   */
  method ExtractLargestCluster(gray: seq<real>, w: nat, h: nat)
    returns (features: Option<Features>, ghost labels: seq<int>, ghost largest: int, ghost box: Box)
    requires |gray| == w * h
    ensures features.None? <==> InkRejected(CountBelow(gray, OtsuThreshold(gray)), w * h)
    ensures features.Some? ==> WellFormed(features.value)
    ensures features.Some? ==> Explains(gray, w, h, features.value, labels, largest, box)
  {
    var binary, rejected := InkGuard(gray, w, h);
    if rejected {
      return None, [], 0, Box(0, 0, 0, 0);
    }
    var f;
    f, labels, largest, box := DescribeLargestCluster(binary, w, h);
    features := Some(f);
    assert Explains(gray, w, h, f, labels, largest, box);
  }

  /**
   * `f` is the descriptor of region `largest` of the labelling `labels` of
   * the Otsu mask of `gray` (a labelling into 4-connected regions), cropped
   * to the padded bounding box `box`.
   */
  ghost predicate Explains(gray: seq<real>, w: nat, h: nat, f: Features, labels: seq<int>, largest: int, box: Box)
    requires |gray| == w * h
  {
    |labels| == w * h && largest != 0 &&
    NeighboursShareLabels(Mask(gray, OtsuThreshold(gray)), labels, w) &&
    SameLabelConnected(Mask(gray, OtsuThreshold(gray)), labels, w) &&
    LargestRegion(labels, largest) &&
    box == PadBox(BoxScan(Region(labels, largest), w, h, w * h), PadAmount(w, h), w, h) &&
    InsideImage(box, w, h) &&
    f == Describe(Resampled(Region(labels, largest), w, h, box), box.cmax - box.cmin + 1, box.rmax - box.rmin + 1)
  }

  /** Everything after the ink guard, on a mask with ink. */
  method DescribeLargestCluster(binary: array<int>, w: nat, h: nat)
    returns (f: Features, ghost labels: seq<int>, ghost largest: int, ghost box: Box)
    requires binary.Length == w * h && !NoInk(binary[..])
    ensures WellFormed(f)
    ensures |labels| == w * h && largest != 0
    ensures NeighboursShareLabels(binary[..], labels, w) && SameLabelConnected(binary[..], labels, w)
    ensures LargestRegion(labels, largest)
    ensures box == PadBox(BoxScan(Region(labels, largest), w, h, w * h), PadAmount(w, h), w, h)
    ensures InsideImage(box, w, h)
    ensures f == Describe(Resampled(Region(labels, largest), w, h, box), box.cmax - box.cmin + 1, box.rmax - box.rmin + 1)
  {
    var mask;
    mask, labels, largest := LargestCluster(binary, w, h);
    var padded := Crop(mask, w, h);
    box := padded;
    f := DescribeCrop(mask, w, h, padded);
  }

  /**
   * The mask `gray < otsu(gray)` and the ink-ratio guard on it: `rejected`
   * is the corrected guard; an accepted mask has ink.
   */
  method InkGuard(gray: seq<real>, w: nat, h: nat) returns (binary: array<int>, rejected: bool)
    requires |gray| == w * h
    ensures binary.Length == w * h && binary[..] == Mask(gray, OtsuThreshold(gray))
    ensures rejected == InkRejected(CountBelow(gray, OtsuThreshold(gray)), w * h)
    ensures !rejected ==> !NoInk(binary[..])
  {
    var inkCount;
    binary, inkCount := Binarize(gray);
    ghost var ink, n := CountBelow(gray, OtsuThreshold(gray)), w * h;
    assert inkCount == ink && binary.Length == n;
    InkGuardCorrected(ink, n);
    rejected := InkRejected(inkCount, binary.Length);
  }

  /** `thresh = otsu(gray)`, the binary mask `gray < thresh` and its ink count. */
  method Binarize(gray: seq<real>) returns (binary: array<int>, inkCount: nat)
    ensures binary[..] == Mask(gray, OtsuThreshold(gray)) && binary.Length == |gray|
    ensures inkCount == CountBelow(gray, OtsuThreshold(gray))
    ensures inkCount == 0 <==> NoInk(binary[..])
  {
    var thresh := Otsu(gray);
    binary := Cluster.Binarize(gray, thresh);
    var count := CountInk(binary);
    MaskSumCountsInk(gray, thresh);
    inkCount := count;
  }

  /**
   * `connectedComponents` and the mask of its largest region. On a mask with
   * ink the largest label is a real region, so the region mask has ink.
   */
  method LargestCluster(binary: array<int>, w: nat, h: nat)
    returns (mask: array<int>, ghost labels: seq<int>, ghost largest: int)
    requires binary.Length == w * h && !NoInk(binary[..])
    ensures mask.Length == w * h && mask[..] == Region(labels, largest)
    ensures |labels| == w * h && largest != 0 && AnyInk(mask[..], w * h)
    ensures NeighboursShareLabels(binary[..], labels, w) && SameLabelConnected(binary[..], labels, w)
    ensures LargestRegion(labels, largest)
  {
    var cc, largestLabel, forest := ConnectedComponents(binary, w, h);
    labels, largest := cc[..], largestLabel;
    assert largest in Firsts(labels);
    mask := RegionMask(cc, largestLabel);
    assert mask[..] == Region(labels, largest);
    RegionHasInk(labels, largest);
  }

  /** The bounding box of the region, padded by `pad` and clamped to the image. */
  method Crop(mask: array<int>, w: nat, h: nat) returns (box: Box)
    requires mask.Length == w * h && AnyInk(mask[..], w * h)
    ensures box == PadBox(BoxScan(mask[..], w, h, w * h), PadAmount(w, h), w, h)
    ensures InsideImage(box, w, h)
  {
    var tight := BoundingBox(mask, w, h);
    BoxScanInside(mask[..], w, h, mask.Length);
    var pad := PadAmount(w, h);
    box := PadBox(tight, pad, w, h);
    PaddedBoxInside(tight, pad, w, h);
  }

  /** The 32 x 32 resampling of the crop and the descriptor loops over it. */
  method DescribeCrop(mask: array<int>, w: nat, h: nat, box: Box) returns (f: Features)
    requires mask.Length == w * h && InsideImage(box, w, h) && Binary(mask[..])
    ensures f == Describe(Resampled(mask[..], w, h, box), box.cmax - box.cmin + 1, box.rmax - box.rmin + 1)
    ensures WellFormed(f)
  {
    var norm := Resample(mask, w, h, box);
    ResampledInUnit(mask[..], w, h, box);
    var cw, ch := box.cmax - box.cmin + 1, box.rmax - box.rmin + 1;
    f := ComputeFeatures(norm, cw, ch);
    DescribeWellFormed(norm[..], cw, ch);
  }

  /**
   * `if (!features) return 0`: no descriptor scores 0. The weighted composite
   * of the similarity measures is a parameter here.
   */
  function MatchScore(features: Option<Features>, composite: Features -> real): (r: real)
    ensures features.None? ==> r == 0.0
  {
    match features
    case None => 0.0
    case Some(f) => composite(f)
  }
}
