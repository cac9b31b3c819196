// 4-connectivity of the foreground of a row-major binary mask of width `w`:
// what makes `connectedComponents` (src/App.js:42-65) a labelling of regions.
// Two foreground pixels are connected when a walk through foreground pixels,
// each step to the pixel left, right, above or below, leads from one to the other.

module Connectivity {

  /** Pixel `i` of a row-major image of width `w` has a left neighbour (`x > 0`). */
  predicate HasLeft(w: int, i: int)
  {
    w > 0 && i % w > 0
  }

  /** Pixels `i` and `j` touch horizontally (same row) or vertically. */
  predicate Adjacent(w: int, i: int, j: int)
  {
    (j == i + 1 && HasLeft(w, j)) || (i == j + 1 && HasLeft(w, i)) || j == i + w || i == j + w
  }

  /** A non-empty walk through foreground pixels, each step to an adjacent pixel. */
  predicate IsPath(binary: seq<int>, w: int, path: seq<int>)
  {
    |path| > 0 &&
    (forall k :: 0 <= k < |path| ==> 0 <= path[k] < |binary| && binary[path[k]] != 0) &&
    (forall k :: 0 <= k < |path| - 1 ==> Adjacent(w, path[k], path[k + 1]))
  }

  /** Foreground pixels `i` and `j` lie in the same 4-connected region. */
  ghost predicate Connected(binary: seq<int>, w: int, i: int, j: int)
  {
    exists path :: IsPath(binary, w, path) && path[0] == i && path[|path| - 1] == j
  }

  /** Every foreground pixel is connected to itself. */
  lemma ConnectedSelf(binary: seq<int>, w: int, i: int)
    requires 0 <= i < |binary| && binary[i] != 0
    ensures Connected(binary, w, i, i)
  {
    assert IsPath(binary, w, [i]);
  }

  /** Adjacent foreground pixels are connected, in both directions. */
  lemma ConnectedEdge(binary: seq<int>, w: int, i: int, j: int)
    requires 0 <= i < |binary| && binary[i] != 0 && 0 <= j < |binary| && binary[j] != 0 && Adjacent(w, i, j)
    ensures Connected(binary, w, i, j) && Connected(binary, w, j, i)
  {
    assert IsPath(binary, w, [i, j]);
    assert IsPath(binary, w, [j, i]);
  }

  /** Two walks that meet at `j` make one walk. */
  lemma ConnectedTrans(binary: seq<int>, w: int, i: int, j: int, k: int)
    requires Connected(binary, w, i, j) && Connected(binary, w, j, k)
    ensures Connected(binary, w, i, k)
  {
    var p1 :| IsPath(binary, w, p1) && p1[0] == i && p1[|p1| - 1] == j;
    var p2 :| IsPath(binary, w, p2) && p2[0] == j && p2[|p2| - 1] == k;
    var p := p1 + p2[1..];
    forall m | 0 <= m < |p| - 1
      ensures Adjacent(w, p[m], p[m + 1])
    {
      if m < |p1| - 1 {
        assert p[m] == p1[m] && p[m + 1] == p1[m + 1];
      } else {
        var m2 := m - |p1| + 1;
        assert p[m] == p2[m2] && p[m + 1] == p2[m2 + 1];
      }
    }
    forall m | 0 <= m < |p|
      ensures 0 <= p[m] < |binary| && binary[p[m]] != 0
    {
      if m >= |p1| {
        assert p[m] == p2[m - |p1| + 1];
      }
    }
    assert IsPath(binary, w, p);
  }
}
