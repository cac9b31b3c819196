// Connected-component labelling of a binary mask (`connectedComponents`,
// src/App.js:42-65): one raster pass gives every foreground pixel the label of
// its up or left neighbour (joining the two labels when both are set) or a
// fresh one; a second pass replaces every label by its root and tallies the
// region sizes in a Map, and the largest region wins, the first one met on a tie.
//
// The Map is modelled by `sizes` together with `keys`, its keys in insertion
// order, which is the order a JavaScript Map iterates in.

module Labeling {
  import opened Common
  import opened UnionFind
  import opened Connectivity

  // ---------------------------------------------------------------------------
  // Specification functions

  /** How many entries of `s` equal `l`. */
  function Count(s: seq<int>, l: int): (c: nat)
    ensures c <= |s|
    ensures c > 0 <==> l in s
  {
    if |s| == 0 then 0
    else
      assert s == s[..|s| - 1] + [s[|s| - 1]];
      Count(s[..|s| - 1], l) + (if s[|s| - 1] == l then 1 else 0)
  }

  /** The non-zero values of `s` in order of first appearance: the keys of a Map filled from `s`. */
  function Firsts(s: seq<int>): (r: seq<int>)
    ensures forall l :: l in r <==> l != 0 && l in s
    ensures forall i, j :: 0 <= i < j < |r| ==> r[i] != r[j]
  {
    if |s| == 0 then []
    else
      assert s == s[..|s| - 1] + [s[|s| - 1]];
      var p := Firsts(s[..|s| - 1]);
      if s[|s| - 1] == 0 || s[|s| - 1] in p then p else p + [s[|s| - 1]]
  }

  /** `sizes` with key order `keys` is the Map that counting the non-zero entries of `s` builds. */
  ghost predicate Tallied(s: seq<int>, sizes: map<int, int>, keys: seq<int>)
  {
    keys == Firsts(s) &&
    (forall l :: l in sizes <==> l in keys) &&
    (forall l :: l in sizes ==> sizes[l] == Count(s, l))
  }

  /**
   * The first `n` pixels (raster order) have been labelled: a label is 0 exactly
   * on background, later pixels are still 0, a foreground pixel shares a root
   * with its foreground left and up neighbours, and pixels whose labels share
   * a root are 4-connected.
   */
  ghost predicate Scanned(binary: seq<int>, labels: seq<int>, p: seq<int>, w: nat, n: int)
    requires Forest(p) && |binary| == |labels| && 0 <= n <= |labels|
  {
    Joined(binary, labels, p, w, n) && Separated(binary, labels, p, w, n)
  }

  /** The first `n` pixels are labelled, and share a root with their foreground left and up neighbours. */
  ghost predicate Joined(binary: seq<int>, labels: seq<int>, p: seq<int>, w: nat, n: int)
    requires Forest(p) && |binary| == |labels| && 0 <= n <= |labels|
  {
    LabelledPrefix(binary, labels, |p|, n) &&
    JoinedLeft(binary, labels, p, w, n) &&
    JoinedUp(binary, labels, p, w, n)
  }

  /** Labels below `n` are 0 exactly on background and below `bound`; the rest are still 0. */
  ghost predicate LabelledPrefix(binary: seq<int>, labels: seq<int>, bound: int, n: int)
    requires |binary| == |labels| && 0 <= n <= |labels|
  {
    (forall i :: 0 <= i < n ==> 0 <= labels[i] < bound && (labels[i] == 0 <==> binary[i] == 0)) &&
    (forall i :: n <= i < |labels| ==> labels[i] == 0)
  }

  ghost predicate JoinedLeft(binary: seq<int>, labels: seq<int>, p: seq<int>, w: nat, n: int)
    requires Forest(p) && |binary| == |labels| && 0 <= n <= |labels|
    requires LabelledPrefix(binary, labels, |p|, n)
  {
    forall i :: 1 <= i < n && binary[i] != 0 && HasLeft(w, i) && binary[i - 1] != 0 ==>
      Root(p, labels[i]) == Root(p, labels[i - 1])
  }

  ghost predicate JoinedUp(binary: seq<int>, labels: seq<int>, p: seq<int>, w: nat, n: int)
    requires Forest(p) && |binary| == |labels| && 0 <= n <= |labels|
    requires LabelledPrefix(binary, labels, |p|, n)
  {
    forall i :: w <= i < n && binary[i] != 0 && binary[i - w] != 0 ==>
      Root(p, labels[i]) == Root(p, labels[i - w])
  }

  /**
   * Scanned foreground pixels whose labels share a root are 4-connected: the
   * raster pass never joins two labels that do not meet.
   */
  ghost predicate Separated(binary: seq<int>, labels: seq<int>, p: seq<int>, w: nat, n: int)
    requires Forest(p) && |binary| == |labels| && 0 <= n <= |labels|
    requires LabelledPrefix(binary, labels, |p|, n)
  {
    forall i, j {:trigger Connected(binary, w, i, j)} :: (0 <= i < n && 0 <= j < n && binary[i] != 0 && binary[j] != 0 &&
      Root(p, labels[i]) == Root(p, labels[j])) ==> Connected(binary, w, i, j)
  }

  /** `up`: the label of the foreground pixel above pixel `n`, or 0. */
  function UpLabel(binary: seq<int>, labels: seq<int>, w: nat, n: int): int
    requires |binary| == |labels| && 0 <= n < |labels|
  {
    if w <= n && binary[n - w] != 0 then labels[n - w] else 0
  }

  /** `left`: the label of the foreground pixel left of pixel `n`, or 0. */
  function LeftLabel(binary: seq<int>, labels: seq<int>, w: nat, n: int): int
    requires |binary| == |labels| && 0 <= n < |labels|
  {
    if 1 <= n && HasLeft(w, n) && binary[n - 1] != 0 then labels[n - 1] else 0
  }

  /**
   * One step of the raster pass at pixel `n`, from labels `labels` and forest
   * `p` to `labels'` and `p'`: background is skipped; a foreground pixel takes
   * the smaller of `up` and `left` when both are set, and their trees are
   * joined; the one that is set; or the fresh label `|p|`, pushed as a root.
   */
  ghost predicate PixelStep(binary: seq<int>, labels: seq<int>, p: seq<int>, labels': seq<int>, p': seq<int>, w: nat, n: int)
    requires Forest(p) && Forest(p') && |binary| == |labels| && 0 <= n < |labels|
  {
    var up, left := UpLabel(binary, labels, w, n), LeftLabel(binary, labels, w, n);
    if binary[n] == 0 then labels' == labels && p' == p
    else if up != 0 && left != 0 then labels' == labels[n := Min(up, left)] && Merged(p, p', up, left)
    else if up != 0 then labels' == labels[n := up] && p' == p
    else if left != 0 then labels' == labels[n := left] && p' == p
    else labels' == labels[n := |p|] && p' == p + [|p|]
  }

  // ---------------------------------------------------------------------------
  // The raster pass

  /** Labelling pixel `n` with `v`, and joining trees, extends the joined prefix by one pixel. */
  lemma ScanStep(binary: seq<int>, labels: seq<int>, p: seq<int>, q: seq<int>, w: nat, n: int, v: int)
    requires Forest(p) && Forest(q) && Coarsens(p, q)
    requires |binary| == |labels| && 0 <= n < |labels|
    requires Joined(binary, labels, p, w, n)
    requires 0 <= v < |q| && (v == 0 <==> binary[n] == 0)
    requires 1 <= n && binary[n] != 0 && HasLeft(w, n) && binary[n - 1] != 0 ==> Root(q, v) == Root(q, labels[n - 1])
    requires w <= n && binary[n] != 0 && binary[n - w] != 0 ==> Root(q, v) == Root(q, labels[n - w])
    ensures Joined(binary, labels[n := v], q, w, n + 1)
  {
    assert LabelledPrefix(binary, labels[n := v], |q|, n + 1);
    JoinedLeftStep(binary, labels, p, q, w, n, v);
    JoinedUpStep(binary, labels, p, q, w, n, v);
  }

  lemma JoinedLeftStep(binary: seq<int>, labels: seq<int>, p: seq<int>, q: seq<int>, w: nat, n: int, v: int)
    requires Forest(p) && Forest(q) && Coarsens(p, q)
    requires |binary| == |labels| && 0 <= n < |labels|
    requires Joined(binary, labels, p, w, n) && LabelledPrefix(binary, labels[n := v], |q|, n + 1)
    requires 1 <= n && binary[n] != 0 && HasLeft(w, n) && binary[n - 1] != 0 ==> Root(q, v) == Root(q, labels[n - 1])
    ensures JoinedLeft(binary, labels[n := v], q, w, n + 1)
  {
    var l := labels[n := v];
    forall i | 1 <= i < n + 1 && binary[i] != 0 && HasLeft(w, i) && binary[i - 1] != 0
      ensures Root(q, l[i]) == Root(q, l[i - 1])
    {
      if i < n {
        CoarsensJoins(p, q, labels[i], labels[i - 1]);
      }
    }
  }

  lemma JoinedUpStep(binary: seq<int>, labels: seq<int>, p: seq<int>, q: seq<int>, w: nat, n: int, v: int)
    requires Forest(p) && Forest(q) && Coarsens(p, q)
    requires |binary| == |labels| && 0 <= n < |labels|
    requires Joined(binary, labels, p, w, n) && LabelledPrefix(binary, labels[n := v], |q|, n + 1)
    requires w <= n && binary[n] != 0 && binary[n - w] != 0 ==> Root(q, v) == Root(q, labels[n - w])
    ensures JoinedUp(binary, labels[n := v], q, w, n + 1)
  {
    var l := labels[n := v];
    forall i | w <= i < n + 1 && binary[i] != 0 && binary[i - w] != 0
      ensures Root(q, l[i]) == Root(q, l[i - w])
    {
      if i < n {
        CoarsensJoins(p, q, labels[i], labels[i - w]);
      }
    }
  }

  /**
   * Giving pixel `n` the label `v` keeps scanned pixels that share a root
   * connected, when every pixel now in the class of `v` is connected to `n`
   * and every other class of `q` is a class of `p`.
   */
  lemma SeparatedExtend(binary: seq<int>, labels: seq<int>, p: seq<int>, q: seq<int>, w: nat, n: int, v: int)
    requires Forest(p) && Forest(q) && |p| <= |q| && |binary| == |labels| && 0 <= n < |labels|
    requires LabelledPrefix(binary, labels, |p|, n) && Separated(binary, labels, p, w, n)
    requires binary[n] != 0 && 0 < v < |q| && LabelledPrefix(binary, labels[n := v], |q|, n + 1)
    requires forall i :: 0 <= i < n && binary[i] != 0 && Root(q, labels[i]) == Root(q, v) ==>
      Connected(binary, w, i, n) && Connected(binary, w, n, i)
    requires forall i, j :: (0 <= i < n && 0 <= j < n && binary[i] != 0 && binary[j] != 0 &&
      Root(q, labels[i]) == Root(q, labels[j])) ==> Root(p, labels[i]) == Root(p, labels[j]) || Root(q, labels[i]) == Root(q, v)
    ensures Separated(binary, labels[n := v], q, w, n + 1)
  {
    var l := labels[n := v];
    forall i, j | 0 <= i < n + 1 && 0 <= j < n + 1 && binary[i] != 0 && binary[j] != 0 && Root(q, l[i]) == Root(q, l[j])
      ensures Connected(binary, w, i, j)
    {
      if i == n && j == n {
        ConnectedSelf(binary, w, n);
      } else if i == n {
        assert l[j] == labels[j];
      } else if j == n {
        assert l[i] == labels[i];
      } else {
        assert l[i] == labels[i] && l[j] == labels[j];
        if Root(p, labels[i]) != Root(p, labels[j]) {
          ConnectedTrans(binary, w, i, n, j);
        }
      }
    }
  }

  /** Copying the label of an adjacent scanned foreground pixel `m` keeps the classes connected. */
  lemma SeparatedCopy(binary: seq<int>, labels: seq<int>, p: seq<int>, w: nat, n: int, m: int)
    requires Forest(p) && |binary| == |labels| && 0 <= m < n < |labels|
    requires LabelledPrefix(binary, labels, |p|, n) && Separated(binary, labels, p, w, n)
    requires binary[n] != 0 && binary[m] != 0 && Adjacent(w, m, n)
    ensures LabelledPrefix(binary, labels[n := labels[m]], |p|, n + 1)
    ensures Separated(binary, labels[n := labels[m]], p, w, n + 1)
  {
    ConnectedEdge(binary, w, m, n);
    forall i | 0 <= i < n && binary[i] != 0 && Root(p, labels[i]) == Root(p, labels[m])
      ensures Connected(binary, w, i, n) && Connected(binary, w, n, i)
    {
      ConnectedTrans(binary, w, i, m, n);
      ConnectedTrans(binary, w, n, m, i);
    }
    SeparatedExtend(binary, labels, p, p, w, n, labels[m]);
  }

  /** A fresh label, pushed as a new root, starts a class of its own. */
  lemma SeparatedFresh(binary: seq<int>, labels: seq<int>, p: seq<int>, w: nat, n: int)
    requires Forest(p) && |binary| == |labels| && 0 <= n < |labels|
    requires LabelledPrefix(binary, labels, |p|, n) && Separated(binary, labels, p, w, n)
    requires binary[n] != 0
    ensures Forest(p + [|p|]) && LabelledPrefix(binary, labels[n := |p|], |p| + 1, n + 1)
    ensures Separated(binary, labels[n := |p|], p + [|p|], w, n + 1)
  {
    PushCoarsens(p);
    SeparatedExtend(binary, labels, p, p + [|p|], w, n, |p|);
  }

  /** Joining the trees of `up` and `left` through pixel `n` keeps the classes connected. */
  lemma SeparatedJoin(binary: seq<int>, labels: seq<int>, p: seq<int>, q: seq<int>, w: nat, n: int)
    requires Forest(p) && Forest(q) && |binary| == |labels| && 0 <= n < |labels|
    requires LabelledPrefix(binary, labels, |p|, n) && Separated(binary, labels, p, w, n)
    requires binary[n] != 0 && w <= n && 1 <= n && HasLeft(w, n) && binary[n - w] != 0 && binary[n - 1] != 0
    requires Merged(p, q, labels[n - w], labels[n - 1])
    ensures LabelledPrefix(binary, labels[n := Min(labels[n - w], labels[n - 1])], |q|, n + 1)
    ensures Separated(binary, labels[n := Min(labels[n - w], labels[n - 1])], q, w, n + 1)
  {
    var up, left := labels[n - w], labels[n - 1];
    ConnectedEdge(binary, w, n - w, n);
    ConnectedEdge(binary, w, n - 1, n);
    MergedClasses(p, q, up, left, up, left);
    forall i | 0 <= i < n && binary[i] != 0 && Root(q, labels[i]) == Root(q, Min(up, left))
      ensures Connected(binary, w, i, n) && Connected(binary, w, n, i)
    {
      MergedClasses(p, q, up, left, labels[i], labels[i]);
      var m := if Root(p, labels[i]) == Root(p, up) then n - w else n - 1;
      ConnectedTrans(binary, w, i, m, n);
      ConnectedTrans(binary, w, n, m, i);
    }
    forall i, j | 0 <= i < n && 0 <= j < n && binary[i] != 0 && binary[j] != 0 && Root(q, labels[i]) == Root(q, labels[j])
      ensures Root(p, labels[i]) == Root(p, labels[j]) || Root(q, labels[i]) == Root(q, Min(up, left))
    {
      MergedClasses(p, q, up, left, labels[i], labels[j]);
    }
    SeparatedExtend(binary, labels, p, q, w, n, Min(up, left));
  }

  /** A step of the raster pass extends the scanned prefix by pixel `n`. */
  lemma PixelStepScanned(binary: seq<int>, labels: seq<int>, p: seq<int>, labels': seq<int>, p': seq<int>, w: nat, n: int, n': int)
    requires Forest(p) && Forest(p') && |binary| == |labels| && 0 <= n < |labels| && n' == n + 1
    requires w > 0 && Scanned(binary, labels, p, w, n) && PixelStep(binary, labels, p, labels', p', w, n)
    ensures |labels'| == |labels| && Coarsens(p, p') && Scanned(binary, labels', p', w, n')
  {
    PixelStepJoined(binary, labels, p, labels', p', w, n);
    PixelStepSeparated(binary, labels, p, labels', p', w, n);
  }

  /** A step of the raster pass extends the joined prefix by pixel `n`. */
  lemma PixelStepJoined(binary: seq<int>, labels: seq<int>, p: seq<int>, labels': seq<int>, p': seq<int>, w: nat, n: int)
    requires Forest(p) && Forest(p') && |binary| == |labels| && 0 <= n < |labels|
    requires w > 0 && Joined(binary, labels, p, w, n) && PixelStep(binary, labels, p, labels', p', w, n)
    ensures |labels'| == |labels| && Coarsens(p, p') && Joined(binary, labels', p', w, n + 1)
  {
    var up, left := UpLabel(binary, labels, w, n), LeftLabel(binary, labels, w, n);
    if binary[n] == 0 {
      assert labels[n := 0] == labels;
      ScanStep(binary, labels, p, p, w, n, 0);
    } else if up != 0 && left != 0 {
      MergedCoarsens(p, p', up, left);
      MergedClasses(p, p', up, left, up, left);
      ScanStep(binary, labels, p, p', w, n, Min(up, left));
    } else if up != 0 {
      ScanStep(binary, labels, p, p, w, n, up);
    } else if left != 0 {
      ScanStep(binary, labels, p, p, w, n, left);
    } else {
      PushCoarsens(p);
      ScanStep(binary, labels, p, p', w, n, |p|);
    }
  }

  /** A step of the raster pass joins only labels of connected pixels. */
  lemma PixelStepSeparated(binary: seq<int>, labels: seq<int>, p: seq<int>, labels': seq<int>, p': seq<int>, w: nat, n: int)
    requires Forest(p) && Forest(p') && |binary| == |labels| && 0 <= n < |labels|
    requires Joined(binary, labels, p, w, n) && Separated(binary, labels, p, w, n)
    requires PixelStep(binary, labels, p, labels', p', w, n)
    requires |labels'| == |labels| && LabelledPrefix(binary, labels', |p'|, n + 1)
    ensures Separated(binary, labels', p', w, n + 1)
  {
    var up, left := UpLabel(binary, labels, w, n), LeftLabel(binary, labels, w, n);
    if binary[n] == 0 {
    } else if up != 0 && left != 0 {
      SeparatedJoin(binary, labels, p, p', w, n);
    } else if up != 0 {
      SeparatedCopy(binary, labels, p, w, n, n - w);
    } else if left != 0 {
      SeparatedCopy(binary, labels, p, w, n, n - 1);
    } else {
      SeparatedFresh(binary, labels, p, w, n);
    }
  }

  lemma NextRow(w: nat, h: nat, y: nat)
    requires y < h
    ensures y * w + w == (y + 1) * w <= w * h
    ensures forall x :: 0 <= x < w ==> Idx(w, h, y, x) == y * w + x
  {
    MulMonotone(y + 1, h, w);
  }

  lemma ScanStart(binary: seq<int>, labels: seq<int>, w: nat)
    requires |binary| == |labels| && forall i :: 0 <= i < |labels| ==> labels[i] == 0
    ensures Scanned(binary, labels, [0], w, 0)
  {
  }

  /** The first pass: provisional labels, with `uf` recording which labels touch. */
  method ScanLabels(binary: array<int>, w: nat, h: nat, uf: DisjointSets) returns (labels: array<int>)
    requires binary.Length == w * h
    requires uf.Valid() && uf.parent == [0]
    modifies uf
    ensures fresh(labels) && labels.Length == w * h
    ensures uf.Valid() && Scanned(binary[..], labels[..], uf.parent, w, w * h)
  {
    labels := new int[w * h](_ => 0);
    ScanStart(binary[..], labels[..], w);
    var nextLabel := 1;
    for y := 0 to h
      invariant uf.Valid() && nextLabel == |uf.parent|
      invariant y * w <= w * h
      invariant Scanned(binary[..], labels[..], uf.parent, w, y * w)
    {
      NextRow(w, h, y);
      nextLabel := ScanRow(binary, labels, uf, w, h, y, nextLabel);
    }
    assert h * w == w * h;
  }

  /** Row `y` of the raster pass, left to right. */
  method ScanRow(binary: array<int>, labels: array<int>, uf: DisjointSets, w: nat, h: nat, y: nat, nextLabel: int)
    returns (next: int)
    requires binary != labels && binary.Length == labels.Length == w * h && y < h
    requires y * w + w <= w * h
    requires uf.Valid() && nextLabel == |uf.parent|
    requires Scanned(binary[..], labels[..], uf.parent, w, y * w)
    modifies labels, uf
    ensures uf.Valid() && next == |uf.parent|
    ensures labels[..y * w] == old(labels[..y * w])
    ensures Scanned(binary[..], labels[..], uf.parent, w, (y + 1) * w)
  {
    NextRow(w, h, y);
    next := nextLabel;
    for x := 0 to w
      invariant uf.Valid() && next == |uf.parent|
      invariant labels[..y * w] == old(labels[..y * w])
      invariant Scanned(binary[..], labels[..], uf.parent, w, y * w + x)
    {
      ghost var before, p := labels[..], uf.parent;
      next := LabelPixel(binary, labels, uf, w, h, y, x, next);
      PixelStepScanned(binary[..], before, p, labels[..], uf.parent, w, Idx(w, h, y, x), y * w + (x + 1));
      assert labels[..y * w] == before[..y * w];
    }
  }

  /**
   * One pixel of the raster pass: background stays 0; foreground takes the
   * smaller of its up and left labels (joining them), the one that is set, or
   * the fresh label `nextLabel`.
   */
  method LabelPixel(binary: array<int>, labels: array<int>, uf: DisjointSets, w: nat, h: nat, y: nat, x: nat, nextLabel: int)
    returns (next: int)
    requires binary != labels && binary.Length == labels.Length == w * h && y < h && x < w
    requires uf.Valid() && nextLabel == |uf.parent|
    requires Scanned(binary[..], labels[..], uf.parent, w, Idx(w, h, y, x))
    modifies labels, uf
    ensures uf.Valid() && next == |uf.parent|
    ensures PixelStep(binary[..], old(labels[..]), old(uf.parent), labels[..], uf.parent, w, Idx(w, h, y, x))
  {
    next := nextLabel;
    var idx := Idx(w, h, y, x);
    if binary[idx] == 0 {
      return;
    }
    assert HasLeft(w, idx) <==> x > 0;
    assert w <= idx <==> y > 0 by {
      if y > 0 {
        MulAtLeast(y, w);
      }
    }
    var up := if y > 0 && binary[idx - w] != 0 then labels[idx - w] else 0;
    var left := if x > 0 && binary[idx - 1] != 0 then labels[idx - 1] else 0;
    ghost var before, p := labels[..], uf.parent;
    if up != 0 && left != 0 {
      labels[idx] := Min(up, left);
      uf.Union(up, left);
    } else if up != 0 {
      labels[idx] := up;
    } else if left != 0 {
      labels[idx] := left;
    } else {
      labels[idx] := next;
      uf.Push(next);
      next := next + 1;
    }
    assert up == UpLabel(binary[..], before, w, idx) && left == LeftLabel(binary[..], before, w, idx);
  }

  // ---------------------------------------------------------------------------
  // The canonicalising pass

  /** `sizes.set(r, (sizes.get(r) || 0) + 1)` counts one more `r`; a new key goes to the end. */
  lemma TallyStep(s: seq<int>, r: int, sizes: map<int, int>, keys: seq<int>)
    requires r != 0 && Tallied(s, sizes, keys)
    ensures Tallied(s + [r], sizes[r := (if r in sizes then sizes[r] else 0) + 1], if r in sizes then keys else keys + [r])
  {
    assert (s + [r])[..|s|] == s;
  }

  /** A background entry leaves the Map unchanged. */
  lemma TallySkip(s: seq<int>, sizes: map<int, int>, keys: seq<int>)
    requires Tallied(s, sizes, keys)
    ensures Tallied(s + [0], sizes, keys)
  {
    assert (s + [0])[..|s|] == s;
  }

  /** The second pass: every label becomes its root, and the Map `sizes` counts each root. */
  method Canonicalise(labels: array<int>, uf: DisjointSets) returns (sizes: map<int, int>, keys: seq<int>)
    requires uf.Valid() && forall i :: 0 <= i < labels.Length ==> 0 <= labels[i] < |uf.parent|
    modifies labels, uf
    ensures uf.Valid() && SameRoots(old(uf.parent), uf.parent)
    ensures forall i :: 0 <= i < labels.Length ==> labels[i] == Root(old(uf.parent), old(labels[i]))
    ensures Tallied(labels[..], sizes, keys)
  {
    ghost var original, p := labels[..], uf.parent;
    sizes, keys := map[], [];
    for i := 0 to labels.Length
      invariant forall j :: 0 <= j < |original| ==> 0 <= original[j] < |p|
      invariant uf.Valid() && SameRoots(p, uf.parent)
      invariant forall j :: 0 <= j < i ==> labels[j] == Root(p, original[j])
      invariant forall j :: i <= j < labels.Length ==> labels[j] == original[j]
      invariant Tallied(labels[..i], sizes, keys)
    {
      sizes, keys := CountPixel(labels, uf, i, sizes, keys);
    }
    assert labels[..labels.Length] == labels[..];
  }

  /** One pixel of the second pass: a non-zero label becomes its root and is counted. */
  method CountPixel(labels: array<int>, uf: DisjointSets, i: int, sizes: map<int, int>, keys: seq<int>)
    returns (sizes': map<int, int>, keys': seq<int>)
    requires uf.Valid() && 0 <= i < labels.Length && 0 <= labels[i] < |uf.parent|
    requires Tallied(labels[..i], sizes, keys)
    modifies labels, uf
    ensures uf.Valid() && SameRoots(old(uf.parent), uf.parent)
    ensures labels[..] == old(labels[..])[i := Root(old(uf.parent), old(labels[i]))]
    ensures Tallied(labels[..i + 1], sizes', keys')
  {
    sizes', keys' := sizes, keys;
    if labels[i] != 0 {
      var r := uf.Find(labels[i]);
      TallyStep(labels[..i], r, sizes, keys);
      labels[i] := r;
      assert labels[..i + 1] == labels[..i] + [r];
      var c := if r in sizes then sizes[r] else 0;
      if r !in sizes {
        keys' := keys + [r];
      }
      sizes' := sizes[r := c + 1];
    } else {
      TallySkip(labels[..i], sizes, keys);
      assert labels[..i + 1] == labels[..i] + [0];
    }
  }

  // ---------------------------------------------------------------------------
  // Choosing the largest region

  /**
   * `for (const [label, size] of sizes)` with a strict `>`: the size kept is
   * the largest (or 0), and the label kept is the first key reaching it.
   */
  method PickLargest(keys: seq<int>, sizes: map<int, int>) returns (largestLabel: int, largestSize: int)
    requires forall k :: 0 <= k < |keys| ==> keys[k] in sizes
    ensures largestSize >= 0
    ensures forall k :: 0 <= k < |keys| ==> sizes[keys[k]] <= largestSize
    ensures largestSize == 0 ==> largestLabel == 0
    ensures largestSize > 0 ==>
      exists k :: 0 <= k < |keys| && keys[k] == largestLabel && sizes[largestLabel] == largestSize &&
        forall j :: 0 <= j < k ==> sizes[keys[j]] < largestSize
  {
    largestLabel, largestSize := 0, 0;
    ghost var at := 0;
    for i := 0 to |keys|
      invariant largestSize >= 0
      invariant forall k :: 0 <= k < i ==> sizes[keys[k]] <= largestSize
      invariant largestSize == 0 ==> largestLabel == 0
      invariant largestSize > 0 ==>
        0 <= at < i && keys[at] == largestLabel && sizes[largestLabel] == largestSize &&
        forall j :: 0 <= j < at ==> sizes[keys[j]] < largestSize
    {
      var size := sizes[keys[i]];
      if size > largestSize {
        largestLabel, largestSize := keys[i], size;
        at := i;
      }
    }
  }

  // ---------------------------------------------------------------------------
  // The whole labelling

  /**
   * The labelling of a finished pass: 0 exactly on background, and a
   * foreground pixel carries the label of its foreground left and up neighbours.
   */
  ghost predicate NeighboursShareLabels(binary: seq<int>, labels: seq<int>, w: nat)
    requires |binary| == |labels|
  {
    (forall i :: 0 <= i < |labels| ==> (labels[i] == 0 <==> binary[i] == 0)) &&
    (forall i :: 1 <= i < |labels| && binary[i] != 0 && HasLeft(w, i) && binary[i - 1] != 0 ==>
      labels[i] == labels[i - 1]) &&
    (forall i :: w <= i < |labels| && binary[i] != 0 && binary[i - w] != 0 ==>
      labels[i] == labels[i - w])
  }

  /** Foreground pixels with the same label lie in one 4-connected region. */
  ghost predicate SameLabelConnected(binary: seq<int>, labels: seq<int>, w: nat)
    requires |binary| == |labels|
  {
    forall i, j {:trigger Connected(binary, w, i, j)} ::
      (0 <= i < |labels| && 0 <= j < |labels| && labels[i] != 0 && labels[i] == labels[j]) ==> Connected(binary, w, i, j)
  }

  /** Every non-zero label is a root of the forest `p`. */
  ghost predicate LabelsAreRoots(labels: seq<int>, p: seq<int>)
  {
    forall i :: 0 <= i < |labels| && labels[i] != 0 ==> 0 < labels[i] < |p| && p[labels[i]] == labels[i]
  }

  /**
   * `largest` is 0 when there is no region; otherwise it is a region of
   * maximal size, and every region met earlier in Map order is strictly smaller.
   */
  ghost predicate LargestRegion(labels: seq<int>, largest: int)
  {
    (largest == 0 <==> forall i :: 0 <= i < |labels| ==> labels[i] == 0) &&
    (largest != 0 ==>
      forall i :: 0 <= i < |labels| && labels[i] != 0 ==> Count(labels, labels[i]) <= Count(labels, largest)) &&
    (largest != 0 ==>
      var keys := Firsts(labels);
      exists k :: 0 <= k < |keys| && keys[k] == largest &&
        forall j :: 0 <= j < k ==> Count(labels, keys[j]) < Count(labels, largest))
  }

  /** Replacing every provisional label by its root turns "shares a root with" into "equals". */
  lemma RootsJoinNeighbours(binary: seq<int>, provisional: seq<int>, labels: seq<int>, p: seq<int>, w: nat)
    requires Forest(p) && |binary| == |provisional| == |labels|
    requires Scanned(binary, provisional, p, w, |provisional|)
    requires forall i :: 0 <= i < |labels| ==> labels[i] == Root(p, provisional[i])
    ensures NeighboursShareLabels(binary, labels, w)
    ensures LabelsAreRoots(labels, p)
  {
    assert LabelledPrefix(binary, provisional, |p|, |provisional|);
    assert JoinedLeft(binary, provisional, p, w, |provisional|);
    assert JoinedUp(binary, provisional, p, w, |provisional|);
  }

  /** Replacing every provisional label by its root keeps only labels of connected pixels equal. */
  lemma RootsSeparate(binary: seq<int>, provisional: seq<int>, labels: seq<int>, p: seq<int>, w: nat)
    requires Forest(p) && |binary| == |provisional| == |labels|
    requires Scanned(binary, provisional, p, w, |provisional|)
    requires forall i :: 0 <= i < |labels| ==> labels[i] == Root(p, provisional[i])
    ensures SameLabelConnected(binary, labels, w)
  {
    assert LabelledPrefix(binary, provisional, |p|, |provisional|);
    assert Separated(binary, provisional, p, w, |provisional|);
    forall i, j | 0 <= i < |labels| && 0 <= j < |labels| && labels[i] != 0 && labels[i] == labels[j]
      ensures Connected(binary, w, i, j)
    {
      assert binary[i] != 0 && binary[j] != 0;
    }
  }

  /** Along a walk through the foreground, a labelling whose neighbours share labels never changes label. */
  lemma {:induction false} PathKeepsLabel(binary: seq<int>, labels: seq<int>, w: nat, path: seq<int>, k: int)
    requires |binary| == |labels| && NeighboursShareLabels(binary, labels, w)
    requires IsPath(binary, w, path) && 0 <= k < |path|
    ensures labels[path[k]] == labels[path[0]]
  {
    if k > 0 {
      PathKeepsLabel(binary, labels, w, path, k - 1);
      var a, b := path[k - 1], path[k];
      assert Adjacent(w, a, b);
      if b == a + 1 && HasLeft(w, b) {
        assert labels[b] == labels[b - 1];
      } else if a == b + 1 && HasLeft(w, a) {
        assert labels[a] == labels[a - 1];
      } else if b == a + w {
        assert labels[b] == labels[b - w];
      } else {
        assert labels[a] == labels[a - w];
      }
    }
  }

  /**
   * With neighbours sharing labels and same labels connected, two foreground
   * pixels carry the same label exactly when they lie in one 4-connected region.
   */
  lemma LabelsAreComponents(binary: seq<int>, labels: seq<int>, w: nat, i: int, j: int)
    requires |binary| == |labels| && NeighboursShareLabels(binary, labels, w) && SameLabelConnected(binary, labels, w)
    requires 0 <= i < |labels| && 0 <= j < |labels| && binary[i] != 0 && binary[j] != 0
    ensures labels[i] == labels[j] <==> Connected(binary, w, i, j)
  {
    if Connected(binary, w, i, j) {
      var path :| IsPath(binary, w, path) && path[0] == i && path[|path| - 1] == j;
      PathKeepsLabel(binary, labels, w, path, |path| - 1);
    }
  }

  /** Roots that stay roots under path halving: a forest with the same roots has the same root entries. */
  lemma SameRootsKeepRoots(labels: seq<int>, p: seq<int>, q: seq<int>)
    requires Forest(p) && Forest(q) && SameRoots(p, q) && LabelsAreRoots(labels, p)
    ensures LabelsAreRoots(labels, q)
  {
    forall i | 0 <= i < |labels| && labels[i] != 0
      ensures q[labels[i]] == labels[i]
    {
      assert Root(p, labels[i]) == labels[i];
    }
  }

  /** What `PickLargest` promises over the Map built from `labels` is `LargestRegion`. */
  lemma PickedIsLargest(labels: seq<int>, sizes: map<int, int>, keys: seq<int>, largestLabel: int, largestSize: int)
    requires Tallied(labels, sizes, keys)
    requires forall k :: 0 <= k < |keys| ==> keys[k] in sizes && sizes[keys[k]] <= largestSize
    requires largestSize >= 0 && (largestSize == 0 ==> largestLabel == 0)
    requires largestSize > 0 ==>
      exists k :: 0 <= k < |keys| && keys[k] == largestLabel && largestLabel in sizes && sizes[largestLabel] == largestSize &&
        forall j :: 0 <= j < k ==> sizes[keys[j]] < largestSize
    ensures LargestRegion(labels, largestLabel)
  {
    forall i | 0 <= i < |labels| && labels[i] != 0
      ensures labels[i] in keys && Count(labels, labels[i]) <= largestSize
    {
      assert labels[i] in labels;
      var k :| 0 <= k < |keys| && keys[k] == labels[i];
    }
    if largestSize > 0 {
      var k :| 0 <= k < |keys| && keys[k] == largestLabel && largestLabel in sizes && sizes[largestLabel] == largestSize &&
        forall j :: 0 <= j < k ==> sizes[keys[j]] < largestSize;
      assert keys[k] in keys;
      assert largestLabel != 0 && largestLabel in labels;
      forall j | 0 <= j < k
        ensures Count(labels, keys[j]) < Count(labels, largestLabel)
      {
        assert keys[j] in keys;
      }
    }
  }

  /** The mask has no foreground pixel. */
  predicate NoInk(binary: seq<int>)
  {
    forall i :: 0 <= i < |binary| ==> binary[i] == 0
  }

  /** With labels that are 0 exactly on background, there is no region exactly when there is no ink. */
  lemma NoRegionMeansNoInk(binary: seq<int>, labels: seq<int>, w: nat, largest: int)
    requires |binary| == |labels| && NeighboursShareLabels(binary, labels, w) && LargestRegion(labels, largest)
    ensures largest == 0 <==> NoInk(binary)
  {
  }

  /**
   * `connectedComponents`: labels are 0 exactly on background, every other
   * label is a root of the final forest, 4-adjacent foreground pixels share a
   * label, pixels with the same label are 4-connected (so each label is one
   * region, see `LabelsAreComponents`), and `largestLabel` names a region of
   * maximal size (the first in Map order on a tie), or is 0 when there is no
   * foreground at all.
   */
  method ConnectedComponents(binary: array<int>, w: nat, h: nat)
    returns (labels: array<int>, largestLabel: int, ghost forest: seq<int>)
    requires binary.Length == w * h
    ensures labels.Length == w * h
    ensures Forest(forest) && LabelsAreRoots(labels[..], forest)
    ensures NeighboursShareLabels(binary[..], labels[..], w)
    ensures SameLabelConnected(binary[..], labels[..], w)
    ensures LargestRegion(labels[..], largestLabel)
    ensures largestLabel == 0 <==> NoInk(binary[..])
  {
    var uf := new DisjointSets();
    labels := ScanLabels(binary, w, h, uf);
    ghost var provisional, p := labels[..], uf.parent;
    var sizes, keys := Canonicalise(labels, uf);
    assert forall k :: 0 <= k < |keys| ==> keys[k] in keys;
    var largestSize;
    largestLabel, largestSize := PickLargest(keys, sizes);
    forest := uf.parent;
    RootsJoinNeighbours(binary[..], provisional, labels[..], p, w);
    RootsSeparate(binary[..], provisional, labels[..], p, w);
    SameRootsKeepRoots(labels[..], p, forest);
    PickedIsLargest(labels[..], sizes, keys, largestLabel, largestSize);
    NoRegionMeansNoInk(binary[..], labels[..], w, largestLabel);
  }
}
