# Shape matcher of flower-scan, in Dafny

flower-scan recognises one drawing, a lavender bouquet, in a photograph. The
matching core in `src/App.js` works in four stages:

- It thresholds the grayscale image with Otsu's method.
- It labels the connected dark regions with a raster-scan union-find and keeps
  the largest one.
- It crops that region to its padded bounding box and resamples the crop to a
  32 x 32 grid.
- It summarises the grid as a shape descriptor: block means, profiles, ink
  density, aspect ratio, quadrant means, centroid and a 256-digit hexadecimal
  hash.

Descriptors are compared by a weighted score, one part of which is the Hamming
distance between hashes.

The model follows the source's imperative form:

- typed arrays are Dafny `array`s filled by loops, each loop proved against a
  specification function;
- the union-find `parent` list is the `seq` field of a class whose `Find` and
  `Union` rewrite it;
- the `sizes` Map is a Dafny `map` with its key insertion order kept beside it
  as a `seq`.

Modules:

| module | file | models |
|---|---|---|
| `Common` | common.dfy | `Option`; the JavaScript number (`Num` or `NaN`); `Box`; `Math.round`; raster-index arithmetic |
| `Threshold` | threshold.dfy | `otsu`: the histogram, the variance scan and its tie-break |
| `Connectivity` | connectivity.dfy | 4-connectivity of the foreground: adjacency, walks, connected pixels |
| `UnionFind` | unionfind.dfy | the `parent` array with `find` (path halving) and `union` (smaller root wins) |
| `Labeling` | labeling.dfy | `connectedComponents`: the raster pass, canonicalisation and size tally, the pick of the largest region |
| `Cluster` | cluster.dfy | the mask, the ink-ratio guard, the region mask, the bounding box, the padding and the 32 x 32 resampling |
| `Hex` | hex.dfy | packing bits into hexadecimal digits, and its inverse |
| `Descriptor` | descriptor.dfy | grid, profiles, ink density, aspect ratio, quadrants, centroid and hash |
| `Hamming` | hamming.dfy | `hammingDistance` |
| `Pipeline` | pipeline.dfy | `extractLargestCluster` from the grayscale image on; the null guard of `matchScore` |

Intensities and descriptor values are exact `real`s. Pixel indices and counts
are unbounded integers; every array in the source is far smaller than 2^31
entries, so no wrap-around applies.

## Model

| member | source | states |
|---|---|---|
| Common.Round | src/App.js:26 | `Math.round(x)` is the integer `n` with `n - 0.5 <= x < n + 0.5` (halves round up) |
| Common.Idx | src/App.js:50 | `y * w + x` is a pixel index below `w * h` whose row is `y` and column `x` |
| Threshold.Bucket | src/App.js:26 | the bin of an intensity is in `[0, 255]` and equals its rounded value when that is in range |
| Threshold.HistogramTotal | src/App.js:25-27 | the 256 bins add up to the number of pixels (`total`) |
| Threshold.BuildHistogram | src/App.js:25-26 | the histogram loop leaves in `hist[b]` the number of pixels whose bin is `b` |
| Threshold.OtsuUpTo | src/App.js:31-38 | after scanning candidates below `n`, the choice is a threshold that splits the pixels into two non-empty classes when one exists, else the default 128 |
| Threshold.VariancePositive | src/App.js:35-37 | every split has variance `wB * wF * diff^2` strictly above 0, so the first split always replaces `best = 0` |
| Threshold.OtsuUpToStable | src/App.js:32-33 | candidates with an empty class (skipped by `continue` or after `break`) never change the choice |
| Threshold.NoSplitAfterFull | src/App.js:33 | once the background class holds every pixel, no later threshold is a split, so the `break` loses nothing |
| Threshold.OtsuUpToIsFirstMaximum | src/App.js:31-38 | the choice scores at least as much as every split scanned, and strictly more than every earlier split |
| Threshold.OtsuThresholdIsFirstMaximum | src/App.js:24-40 | `otsu` is in `[0, 255]`: 128 when no split exists, otherwise the first split of maximal between-class variance |
| Threshold.OneBinGivesDefault | src/App.js:30-33 | when all pixels fall in one bin no threshold is a split and `otsu` returns 128 |
| Threshold.Otsu | src/App.js:24-40 | the histogram and scan loops return a threshold in `[0, 255]` equal to `OtsuThreshold` |
| UnionFind.Root | src/App.js:46 | following parents from `x` ends at a root `r <= x` with `parent[r] == r`, which is 0 only for 0 |
| UnionFind.HalvingKeepsRoots | src/App.js:46 | the halving step `parent[x] = parent[parent[x]]` keeps a forest and changes no element's root |
| UnionFind.LinkMergesRoots | src/App.js:47 | `parent[hi] = lo` for roots `lo < hi` keeps a forest and moves exactly the tree of `hi` under `lo` |
| UnionFind.PushKeepsRoots | src/App.js:57 | pushing a new label as its own parent keeps every other root |
| UnionFind.DisjointSets.constructor | src/App.js:44 | `parent = [0]` is a valid forest |
| UnionFind.DisjointSets.Push | src/App.js:57 | `parent.push(nextLabel)` appends a new root and keeps every older root |
| UnionFind.DisjointSets.Find | src/App.js:46 | `find(x)` returns the root of `x` (`parent[r] == r`) and changes no root |
| UnionFind.DisjointSets.Union | src/App.js:47 | after `union(a, b)` the two share a root; only the larger of the two old roots is moved, under the smaller |
| UnionFind.MergedClasses | src/App.js:47 | after `union(a, b)` a label shares the root of `a` exactly when it shared the root of `a` or of `b` before; any other two labels share a root only if they did before |
| UnionFind.PushCoarsens | src/App.js:57 | `parent.push(nextLabel)` keeps every older root and makes the new label a root of its own |
| Connectivity.ConnectedSelf | src/App.js:42-65 | a foreground pixel is connected to itself |
| Connectivity.ConnectedEdge | src/App.js:51-53 | a foreground pixel is connected, both ways, to a foreground pixel left, right, above or below it |
| Connectivity.ConnectedTrans | src/App.js:42-65 | connection is transitive: two walks that meet make one walk |
| Labeling.Count | src/App.js:61 | a label's pixel count is positive exactly when the label occurs |
| Labeling.Firsts | src/App.js:61 | the Map's key order: every non-zero label once, in order of first occurrence |
| Labeling.ScanStep | src/App.js:51-57 | labelling one more pixel consistently with its left and up neighbours keeps labels 0 exactly on background and 4-adjacent foreground pixels sharing a root |
| Labeling.SeparatedExtend | src/App.js:50-57 | labelling pixel `n` keeps same-root pixels connected when every pixel joining the class of its label is connected to `n` and the union merged no other classes |
| Labeling.SeparatedCopy | src/App.js:54-55 | taking the label of the foreground pixel above or to the left keeps same-root pixels connected |
| Labeling.SeparatedFresh | src/App.js:56 | a fresh label, pushed as a new root, keeps same-root pixels connected |
| Labeling.SeparatedJoin | src/App.js:53 | taking `Math.min(up, left)` and joining `up` with `left` keeps same-root pixels connected, since both neighbours touch the pixel |
| Labeling.PixelStepJoined | src/App.js:50-57 | every branch of one pixel's step only joins trees, and extends the labelled prefix with the pixel agreeing with its left and up neighbours |
| Labeling.PixelStepSeparated | src/App.js:50-57 | every branch of one pixel's step keeps pixels whose labels share a root 4-connected |
| Labeling.PixelStepScanned | src/App.js:50-57 | one pixel's step extends the scanned prefix (labelled, joined to its neighbours, same root only when connected) by that pixel |
| Labeling.LabelPixel | src/App.js:50-57 | one pixel: background is skipped; a foreground pixel takes `Math.min(up, left)` and `union(up, left)` runs when both are set, else `up`, else `left`, else `nextLabel`, which is pushed as a new root and incremented; no other label changes |
| Labeling.ScanRow | src/App.js:49-58 | one row of the raster pass leaves earlier rows alone and extends the scanned prefix by `w` pixels |
| Labeling.ScanLabels | src/App.js:48-59 | after the raster pass, labels are 0 exactly on background, 4-adjacent foreground pixels share a root, and pixels whose labels share a root are 4-connected |
| Labeling.TallyStep | src/App.js:61 | `sizes.set(r, (sizes.get(r) || 0) + 1)` keeps the map equal to the label counts and the key order to first occurrence |
| Labeling.CountPixel | src/App.js:61 | one step of the final pass: the pixel's label becomes its root and is tallied |
| Labeling.Canonicalise | src/App.js:60-61 | the final pass replaces every label by its root without changing roots, and `sizes` counts every non-zero label |
| Labeling.PickLargest | src/App.js:62-63 | the pick is 0 for no region; otherwise a key of maximal size, and every key before it is strictly smaller |
| Labeling.RootsJoinNeighbours | src/App.js:51-61 | replacing each label by its root gives equal labels to 4-adjacent foreground pixels, and every label is a root |
| Labeling.RootsSeparate | src/App.js:60-61 | replacing each label by its root gives equal labels only to 4-connected pixels |
| Labeling.PathKeepsLabel | src/App.js:42-65 | along a walk through the foreground, a labelling whose neighbours share labels keeps one label |
| Labeling.LabelsAreComponents | src/App.js:42-65 | for such a labelling, two foreground pixels have the same label exactly when they are 4-connected: labels are the regions |
| Labeling.PickedIsLargest | src/App.js:60-63 | the picked label is the largest region, the first in Map order on a tie |
| Labeling.NoRegionMeansNoInk | src/App.js:51 | the largest label is 0 exactly when the mask has no foreground pixel |
| Labeling.ConnectedComponents | src/App.js:42-65 | labels are 0 exactly on background, are roots, agree on 4-adjacent foreground pixels and are equal only on 4-connected pixels (so, with `LabelsAreComponents`, each label is one 4-connected region); the largest region is chosen as above, and is 0 only for an empty mask |
| Cluster.Mask | src/App.js:78 | the mask has one entry per pixel |
| Cluster.MaskSumCountsInk | src/App.js:78-80 | the ink count is the number of pixels below the threshold, and it is 0 exactly when the mask is empty |
| Cluster.Binarize | src/App.js:77-78 | the mask loop fills `binary` with `gray < thresh ? 1 : 0` |
| Cluster.CountInk | src/App.js:79-80 | the counting loop returns the sum of the mask |
| Cluster.InkRatio | src/App.js:81 | `inkCount / binary.length` is NaN exactly for an image with no pixels |
| Cluster.EmptyImagePassesGuard | src/App.js:81 | an image with no pixels passes the guard as written but is rejected by the corrected guard |
| Cluster.RatioBounds | src/App.js:81 | `ratio >= 0.005` iff `200 * ink >= n`, and `ratio <= 0.85` iff `20 * ink <= 17 * n` |
| Cluster.InkGuardCorrected | src/App.js:81 | the corrected guard rejects exactly the empty image and ratios outside `[0.005, 0.85]`, agrees with the written guard on every non-empty image, and an accepted image has ink |
| Cluster.RegionMask | src/App.js:83-84 | `mask[i]` is 1 exactly where `labels[i]` is the largest label |
| Cluster.Region | src/App.js:84 | the region mask is binary and non-zero exactly on the region's pixels |
| Cluster.RegionHasInk | src/App.js:84 | the mask of a label that occurs has a pixel |
| Cluster.BoxScanEmpty | src/App.js:85-86 | with no ink the box keeps its start values `(h, 0, w, 0)` |
| Cluster.BoxScanCovers | src/App.js:86 | every ink pixel lies inside the box |
| Cluster.BoxScanAttained | src/App.js:86 | each of the four sides is reached by some ink pixel (the box is the tightest) |
| Cluster.BoxScanInside | src/App.js:85-86 | with ink, `0 <= rmin <= rmax < h` and `0 <= cmin <= cmax < w` |
| Cluster.BoxRow | src/App.js:86 | one row of the scan extends the box of the rows before it |
| Cluster.BoundingBox | src/App.js:85-86 | the nested loop computes the box of all ink pixels |
| Cluster.PadAmount | src/App.js:87 | the pad is at least 2, and otherwise `0.015 * min(w, h)` rounded |
| Cluster.PadAmountInIntegers | src/App.js:87 | the pad is `max(2, (3m + 100) / 200)` for `m = min(w, h)`, and it is 2 exactly when `m < 167` |
| Cluster.PaddedBoxInside | src/App.js:88-89 | the padded box contains the tight box, lies inside the image, and each side moved out by `pad` unless clamped at the border |
| Cluster.WindowInside | src/App.js:95-96 | each resampling window `[lo + floor(x * n / 32), min(hi, lo + floor((x + 1) * n / 32))]` is non-empty and inside `[lo, hi]` |
| Cluster.WindowsTile | src/App.js:95-96 | the first window starts at `lo`, the last ends at `hi`, and each window ends where the next begins |
| Cluster.RectSumBounds | src/App.js:98 | the sum of a binary mask over `r` rows and `c` columns lies in `[0, r * c]` |
| Cluster.WindowRow | src/App.js:98 | the inner loop adds one window row to `s` and its width to `c` |
| Cluster.WindowSum | src/App.js:97-98 | `s` is the mask sum over the window and `c` its area |
| Cluster.WindowMeanInUnit | src/App.js:99 | `s / c` lies in `[0, 1]` |
| Cluster.CellInUnit | src/App.js:94-99 | every grid cell is a mask average in `[0, 1]` |
| Cluster.Resampled | src/App.js:94-99 | the grid has 32 x 32 cells |
| Cluster.ResampledInUnit | src/App.js:94-99 | every value of `norm` lies in `[0, 1]` |
| Cluster.ResampleCell | src/App.js:95-99 | one cell of the loop is the window mean of `Resampled` |
| Cluster.ResampleRow | src/App.js:94-99 | one row of the loop writes its 32 cells and leaves the others alone |
| Cluster.Resample | src/App.js:91-100 | the resampling loop fills `norm` with `Resampled` |
| Descriptor.RowPlainBounds | src/App.js:102 | a row sum of `n` grid values in `[0, 1]` lies in `[0, n]` |
| Descriptor.BlockPlainBounds | src/App.js:102 | a block sum of `r * c` values in `[0, 1]` lies in `[0, r * c]` |
| Descriptor.BlockMeanInUnit | src/App.js:102 | a block mean `s / c` lies in `[0, 1]` |
| Descriptor.BlockRow | src/App.js:102 | the inner loop adds one row of the block to `s` |
| Descriptor.BlockMeanOf | src/App.js:102 | the block loop returns the block mean |
| Descriptor.GridMeans | src/App.js:102 | the grid is 8 x 8 |
| Descriptor.ComputeGrid | src/App.js:101-102 | the nested loops push the 8 x 8 block means row by row |
| Descriptor.GridInUnit | src/App.js:102 | every grid mean lies in `[0, 1]` |
| Descriptor.VProfile | src/App.js:104 | the column profile has 8 entries |
| Descriptor.HProfile | src/App.js:105 | the row profile has 8 entries |
| Descriptor.ComputeProfiles | src/App.js:103-105 | the two loops compute the column and row band means |
| Descriptor.VProfileInUnit | src/App.js:104 | every column band mean lies in `[0, 1]` |
| Descriptor.HProfileInUnit | src/App.js:105 | every row band mean lies in `[0, 1]` |
| Descriptor.PrefixBounds | src/App.js:106 | the running sum of `n` values in `[0, 1]` lies in `[0, n]` |
| Descriptor.InkDensityInUnit | src/App.js:106 | the ink density lies in `[0, 1]` |
| Descriptor.ComputeInkDensity | src/App.js:106 | the loop computes the mean of `norm` |
| Descriptor.AspectPositive | src/App.js:107 | `cw / ch` is positive |
| Descriptor.Quadrants | src/App.js:108-110 | there are four quadrant means |
| Descriptor.ComputeQuadrants | src/App.js:108-110 | the quadrant loop gives the means of the four 16 x 16 quarters, in the order top-left, top-right, bottom-left, bottom-right |
| Descriptor.QuadrantsInUnit | src/App.js:108-110 | every quadrant mean lies in `[0, 1]` |
| Descriptor.RowColumnBounds | src/App.js:112 | a row's column-weighted sum lies between 0 and 31 times its plain sum |
| Descriptor.RowByRow | src/App.js:112 | a row's row-weighted sum is `y` times its plain sum |
| Descriptor.BlockColumnBounds | src/App.js:112 | `cxS` lies between 0 and `31 * cT` |
| Descriptor.BlockRowBounds | src/App.js:112 | `cyS` lies between 0 and `31 * cT` |
| Descriptor.BlockZero | src/App.js:112 | `cT` is 0 exactly when every cell of the block is 0 |
| Descriptor.CentreMeansNoInk | src/App.js:113 | `cT > 0` exactly when some cell of `norm` is non-zero |
| Descriptor.CoordinateBound | src/App.js:113 | `cxS / cT / S` lies in `[0, 31/32]` |
| Descriptor.CentroidStep | src/App.js:112 | one step of the loop adds `x * v`, `y * v` and `v` |
| Descriptor.CentroidRow | src/App.js:112 | one row of the loop extends the three sums by that row |
| Descriptor.ComputeCentroid | src/App.js:111-113 | the loop and the `cT > 0` choice give the centroid |
| Descriptor.CentroidInUnit | src/App.js:111-113 | both centroid coordinates lie in `[0, 31/32]`, so in `[0, 1]` |
| Descriptor.HashBits | src/App.js:114 | `bits` has one character per cell, and it is '1' exactly when the cell exceeds 0.5 |
| Descriptor.ComputeBits | src/App.js:114 | the loop appends those characters in row-major order |
| Descriptor.BinaryHash | src/App.js:114-115 | the hash has exactly 256 lower-case hexadecimal digits and decodes back to the bits |
| Descriptor.BinaryHashDigit | src/App.js:114-115 | hash digit `k` encodes bits `4k .. 4k + 3`, most significant first |
| Descriptor.ComputeFeatures | src/App.js:101-116 | the descriptor loops compute `Describe` of the grid |
| Descriptor.DescribeWellFormed | src/App.js:101-116 | a descriptor has an 8 x 8 grid and profiles of 8, all in `[0, 1]`; four quadrant means and two centroid coordinates in `[0, 1]`; a positive aspect ratio; a 256-digit hash |
| Hex.Pow2 | src/App.js:115 | powers of two are positive |
| Hex.BitsValue | src/App.js:115 | `parseInt(s, 2)` of `n` bits is below `2^n` |
| Hex.HexDigit | src/App.js:115 | `v.toString(16)` is a lower-case hexadecimal digit |
| Hex.HexValue | src/App.js:121 | `parseInt(c, 16)` (NaN read as 0 by `^`) is below 16 |
| Hex.HexValueOfDigit | src/App.js:115 | parsing a written digit gives back its value |
| Hex.DigitOfHexValue | src/App.js:115 | writing the value of a lower-case digit gives back the digit |
| Hex.Nibble | src/App.js:115 | the four bits of a value below 16 are a string of four bits |
| Hex.BitsValueOfFour | src/App.js:115 | four bits are read most significant first, with weights 8, 4, 2, 1 |
| Hex.NibbleOfBits | src/App.js:115 | four bits are the bits of their value |
| Hex.BitsOfNibble | src/App.js:115 | a value below 16 is the value of its four bits |
| Hex.EncodeHex | src/App.js:115 | one lower-case hexadecimal digit per four bits |
| Hex.EncodeHexAppend | src/App.js:115 | four more bits append one digit |
| Hex.DecodeHex | src/App.js:115 | decoding gives four bits per digit |
| Hex.DecodeHexAppend | src/App.js:115 | one more digit appends its four bits |
| Hex.DecodeEncode | src/App.js:115 | decoding the hash of a bit string gives the bit string back |
| Hex.EncodeDecode | src/App.js:115 | encoding the bits of a lower-case hexadecimal string gives the string back |
| Hex.EncodeHexDigit | src/App.js:115 | digit `k` of the encoding is the value of bits `4k .. 4k + 3` |
| Hex.EncodeHexStep | src/App.js:115 | the loop's `i += 4` step appends the digit of `bits.substring(i, i + 4)` |
| Hex.PackHex | src/App.js:115 | the packing loop returns the encoding |
| Hamming.Mismatches | src/App.js:121 | at most as many differing positions as characters |
| Hamming.XorSymmetric | src/App.js:121 | `a ^ b == b ^ a` |
| Hamming.XorZero | src/App.js:121 | `a ^ b == 0` exactly when `a == b` |
| Hamming.XorBelow | src/App.js:121 | the XOR of two `k`-bit values is a `k`-bit value |
| Hamming.PopCountBelow | src/App.js:121 | a `k`-bit value has at most `k` one bits |
| Hamming.PopCountZero | src/App.js:121 | the bit count is 0 exactly for 0 |
| Hamming.CountBits | src/App.js:121 | the `while (xor)` loop adds the number of one bits of `xor` to `diff` |
| Hamming.DigitDistanceAtMostFour | src/App.js:121 | two digits differ in at most 4 bits |
| Hamming.DigitDistanceZero | src/App.js:121 | two lower-case digits differ in no bit exactly when they are equal |
| Hamming.XorCountsMismatches | src/App.js:121 | the one bits of `parseInt(s, 2) ^ parseInt(t, 2)` are the positions where `s` and `t` differ |
| Hamming.MismatchesAppend | src/App.js:121 | differing positions add up over concatenation |
| Hamming.DiffBitsAppend | src/App.js:121 | one more digit pair adds its differing bits |
| Hamming.DiffBitsSymmetric | src/App.js:121 | `diff` is symmetric |
| Hamming.DiffBitsAtMost | src/App.js:121 | `diff <= total`, with `total = 4 * length` |
| Hamming.DiffBitsSelf | src/App.js:121 | a string differs from itself in no bit |
| Hamming.DiffBitsZeroEqual | src/App.js:121 | two lower-case hexadecimal strings that differ in no bit are equal |
| Hamming.DiffBitsZero | src/App.js:121 | `diff == 0` exactly for equal lower-case hexadecimal strings |
| Hamming.DistanceSymmetric | src/App.js:121 | `hammingDistance` is symmetric |
| Hamming.DistanceInUnit | src/App.js:121 | 1 for different lengths, NaN exactly for two empty strings, otherwise in `[0, 1]` |
| Hamming.DistanceZeroIffEqual | src/App.js:121 | for non-empty lower-case hexadecimal strings of equal length the distance is 0 exactly when they are equal |
| Hamming.GroupDistance | src/App.js:121 | the differing bits of two digits of packed groups are the differing positions of the groups |
| Hamming.EncodingStep | src/App.js:121 | appending a group to both bit strings adds the same to both counts |
| Hamming.DiffBitsOfEncoding | src/App.js:114-121 | the differing bits of two packed hashes are the differing positions of the bit strings |
| Hamming.DistanceOfHashes | src/App.js:114-121 | the distance of two packed hashes is the fraction of grid cells thresholded differently |
| Hamming.HammingDistance | src/App.js:121 | the digit loop returns `Distance` |
| Pipeline.Binarize | src/App.js:76-80 | the mask of `gray < otsu(gray)` and its ink count, which is 0 exactly for an empty mask |
| Pipeline.InkGuard | src/App.js:76-81 | the guard's verdict is the corrected guard on the ink count, and an accepted mask has ink |
| Pipeline.LargestCluster | src/App.js:82-84 | the mask of the largest 4-connected region of a labelling that satisfies `connectedComponents`' contract; it has ink |
| Pipeline.Crop | src/App.js:85-90 | the padded bounding box of the region, inside the image |
| Pipeline.DescribeCrop | src/App.js:91-116 | the descriptor of the resampled crop, well formed |
| Pipeline.DescribeLargestCluster | src/App.js:82-116 | a well-formed descriptor of the largest 4-connected region of a labelling with the labelling's properties, cropped to its padded box |
| Pipeline.ExtractLargestCluster | src/App.js:75-116 | null exactly when the corrected ink guard rejects the image; otherwise a well-formed descriptor of the largest 4-connected region of the Otsu mask, cropped to its padded box |
| Pipeline.MatchScore | src/App.js:123-124 | an absent descriptor scores 0 |

## Left out

- The React component, its state machine, the countdown and redirect, the background SVG and the `REF` constant are user interface and data, not computation.
- Camera capture, file decoding and the canvas downscale (`drawImage`, `getImageData`, src/App.js:67-74) are browser I/O. The model starts from a grayscale image of width `w` and height `h`.
- `toGrayscale` (src/App.js:17-22) is a luma weighting. Its output is the model's input, an arbitrary sequence of `real` intensities.
- Float32 storage and floating-point rounding are not modelled. Intensities, means, ratios and the pad product `min(w, h) * .015` are exact reals; `Common.Round` is exact `Math.round`.
- `ncc`, `cosine`, the centroid distance and the weighted composite of `matchScore` (src/App.js:119-120, 125-136) use `Math.sqrt` on floats. `Pipeline.MatchScore` takes the composite as a function parameter and states only the absent-descriptor guard.
- Labeling.ScanRow: the labels of the row are stated through the scanned-prefix invariant (labelled, joined to their neighbours, same root only when connected), not pixel by pixel. Each pixel's label and union-find effect is stated by `Labeling.LabelPixel`.
- Descriptor.ComputeQuadrants: the source divides each quadrant's sum by its cell count, which is the block mean the model uses. The per-quadrant counters `qc` are not kept as separate state.
- Hamming.DistanceZeroIffEqual: stated for lower-case hexadecimal strings. `parseInt` reads 'A' and 'a' alike and any non-digit as 0, so other strings can be at distance 0 without being equal.
- Pipeline.ExtractLargestCluster: returns null for an image with no pixels (`w * h == 0`). The source throws there before it reaches the ink guard: `getImageData` (src/App.js:74) rejects a zero width or height, which also arises when the downscale at :71 rounds a thin image's side to 0, and `drawImage` (:73) rejects a zero-size source. The model writes that exception as the null result.
- Hamming.HammingDistance: strings are sequences of Unicode scalar values, whereas `length` and `h1[i]` (src/App.js:121) count UTF-16 code units. The two differ only for characters outside the Basic Multilingual Plane, which the hash step never produces.

## Findings

| source | as written | input that shows it | evidently intended | confidence | as-written member | corrected member |
|---|---|---|---|---|---|---|
| src/App.js:81 | `inkCount / binary.length < 0.005 \|\| inkCount / binary.length > 0.85` is false when `binary.length` is 0, because `0 / 0` is NaN. The hole is latent: in the program an image with no pixels throws at `getImageData` (src/App.js:74) and never reaches the guard | a mask of length 0 given to the guard (`w * h == 0`): both comparisons are false, so the guard lets it through | an image with no pixels is rejected like one without enough ink | not executed | Cluster.EmptyImagePassesGuard | Cluster.InkGuardCorrected |
